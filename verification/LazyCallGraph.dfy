// LazyCallGraph: components of the call graph formed lazily by a resumable walk, and the edge
// updates that are allowed once components exist.  Nodes and SCCs are identified by numbers;
// their fields are kept in maps from those numbers.
module LazyCallGraph {
  import opened Digraph
  import opened Maps
  import opened TarjanWalk
  import opened WalkStacks
  import opened SccForest
  import opened SccAncestors
  import opened SccUpdates
  import opened SccSplit
  import opened SccSplitWalk
  import opened CallGraphFacts

  class LazyCallGraph {
    // Node: the callee slots and the walk's numbers.
    var Callees: CalleeLists
    var CalleeIndexMap: map<Vertex, IndexMap>
    var DFSNumber: Numbers
    var LowLink: Numbers
    // SCC: members and parents, by SCC number.
    var Nodes: map<SccId, seq<Vertex>>
    var ParentSCCs: map<SccId, set<SccId>>
    // LazyCallGraph
    var SCCMap: map<Vertex, SccId>
    var LeafSCCs: seq<SccId>
    var DFSStack: seq<Frame>
    var SCCEntryNodes: seq<Vertex>
    var PendingSCCStack: seq<Vertex>
    var NextDFSNumber: int
    var NextSCC: SccId

    ghost var Calls: Edges              // the edges that Callees lists
    ghost var Entries: set<Vertex>      // the functions the walk must start from
    ghost var Rank: map<SccId, int>     // components in post-order
    ghost var NextRank: int             // above every rank given out
    ghost var W: Walk                   // the walk that DFSStack and PendingSCCStack suspend

    ghost function Groups(): Forest
      reads this`SCCMap, this`ParentSCCs, this`LeafSCCs, this`Rank
    {
      Forest(SCCMap, ParentSCCs, Ids(LeafSCCs), Rank)
    }

    /** The walk's numbers are the fields of the nodes. */
    ghost predicate Synced()
      reads this`W, this`DFSNumber, this`LowLink, this`NextDFSNumber
    {
      W.dfs == DFSNumber && W.low == LowLink && W.next == NextDFSNumber
    }

    ghost predicate EntriesFit()
      reads this`Entries, this`SCCEntryNodes, this`Callees, this`SCCMap, this`W
    {
      EntriesOk(Entries, SCCEntryNodes, Callees.Keys, Known())
    }

    ghost predicate Valid()
      reads this
    {
      && Exploring(Callees, Calls, SCCMap.Keys, DFSStack, PendingSCCStack, W) && Synced()
      && IndexFits(Callees, CalleeIndexMap) && Tabled(Groups(), Nodes, NextSCC, NextRank) && EntriesFit()
         && Groups().Valid(Calls)
    }

    ghost predicate ParentsExact()
      reads this`Calls, this`SCCMap, this`ParentSCCs, this`LeafSCCs, this`Rank
    {
      Groups().ParentsExact(Calls)
    }

    ghost predicate LeavesExact()
      reads this`Calls, this`SCCMap, this`ParentSCCs, this`LeafSCCs, this`Rank
    {
      Groups().LeavesExact(Calls)
    }

    /** Formed, or being explored. */
    ghost function Known(): set<Vertex>
      reads this`SCCMap, this`W
    {
      SCCMap.Keys + W.Active()
    }

    constructor (callees: CalleeLists, index: map<Vertex, IndexMap>, entries: seq<Vertex>)
      requires IndexFits(callees, index)
      requires forall u, k ::
                 u in callees && 0 <= k < |callees[u]| && callees[u][k].Some? ==> callees[u][k].value in callees
      requires forall x :: x in entries ==> x in callees
      ensures Valid() && Sourced() && ParentsExact() && LeavesExact()
      ensures Callees == callees && Entries == Elements(entries) && Nodes == map[] && SCCMap == map[]
    {
      Callees, CalleeIndexMap, SCCEntryNodes, Entries := callees, index, entries, Elements(entries);
      var zeros := Constant(callees.Keys, 0);
      DFSNumber, LowLink := zeros, zeros;
      Nodes, ParentSCCs, SCCMap, LeafSCCs := map[], map[], map[], [];
      DFSStack, PendingSCCStack, NextDFSNumber, NextSCC := [], [], 0, 0;
      Calls, Rank, NextRank := ListedEdges(callees), map[], 0;
      W := Walk({}, {}, {}, AllZero(callees), AllZero(callees), 0);
      new;
      hide Exploring, Tabled, Forest.Valid, Forest.ParentsExact, Forest.LeavesExact, IndexFits;
      NothingExplored(callees, W);
      NothingFormed(Calls);
      assert SCCMap.Keys == {} && Ids(LeafSCCs) == {};
      assert Known() == {};
    }

    /** One node's part of the pass below. */
    method ConnectNode(c: SccId, n: Vertex) returns (callsOut: bool, ghost kids: set<SccId>)
      requires Lists(Callees, Calls) && n in Callees
      requires forall v :: Edge(Calls, n, v) ==> v in SCCMap && SCCMap[v] in ParentSCCs
      modifies this`ParentSCCs
      ensures Gained(old(ParentSCCs), ParentSCCs, kids, c) && KidsUpTo(Calls, SCCMap, [n], 1, c, kids)
      ensures callsOut <==> kids != {}
    {
      callsOut, kids := false, {};
      var slots := Callees[n];
      for j := 0 to |slots|
        invariant Gained(old(ParentSCCs), ParentSCCs, kids, c)
        invariant forall d :: d in kids ==> d != c && CallsGroup(Calls, SCCMap, [n], d)
        invariant forall k ::
                    0 <= k < j && slots[k].Some? ==> SCCMap[slots[k].value] == c || SCCMap[slots[k].value] in kids
        invariant callsOut <==> kids != {}
      {
        if slots[j].Some? {
          assert Edge(Calls, n, slots[j].value);
          var childSCC := SCCMap[slots[j].value];
          if childSCC != c {
            ParentSCCs := ParentSCCs[childSCC := ParentSCCs[childSCC] + {c}];
            callsOut := true;
            kids := kids + {childSCC};
          }
        }
      }
      forall v | Edge(Calls, n, v)
        ensures SCCMap[v] == c || SCCMap[v] in kids
      {
        var k :| 0 <= k < |slots| && slots[k] == Some(v);
      }
    }

    /** Give every component that c calls c as a parent; the final pass of formSCC and of
        removeIntraSCCEdge. */
    method ConnectToChildren(c: SccId) returns (isLeaf: bool, ghost kids: set<SccId>)
      requires Lists(Callees, Calls) && c in Nodes
      requires forall u :: u in Nodes[c] ==> u in Callees
      requires forall u, v :: u in Nodes[c] && Edge(Calls, u, v) ==> v in SCCMap && SCCMap[v] in ParentSCCs
      modifies this`ParentSCCs
      ensures Gained(old(ParentSCCs), ParentSCCs, kids, c) && KidsOf(Calls, SCCMap, Nodes[c], c, kids)
      ensures isLeaf <==> kids == {}
    {
      hide Gained, KidsUpTo, KidsOf, Lists;
      isLeaf, kids := true, {};
      var ns := Nodes[c];
      GainedNothing(ParentSCCs, c);
      KidsNone(Calls, SCCMap, ns, c);
      for i := 0 to |ns|
        invariant Gained(old(ParentSCCs), ParentSCCs, kids, c) && KidsUpTo(Calls, SCCMap, ns, i, c, kids)
        invariant isLeaf <==> kids == {}
      {
        ghost var before := ParentSCCs;
        GainedKeys(old(ParentSCCs), before, kids, c);
        var callsOut;
        ghost var more;
        callsOut, more := ConnectNode(c, ns[i]);
        GainedThen(old(ParentSCCs), before, ParentSCCs, kids, more, c);
        KidsNext(Calls, SCCMap, ns, i, c, kids, more);
        isLeaf := isLeaf && !callsOut;
        kids := kids + more;
      }
      KidsAll(Calls, SCCMap, ns, c, kids);
    }

    /** SCC::insert */
    method Insert(c: SccId, n: Vertex)
      requires c in Nodes
      modifies this`DFSNumber, this`LowLink, this`Nodes, this`SCCMap
      ensures DFSNumber == old(DFSNumber)[n := -1] && LowLink == old(LowLink)[n := -1]
      ensures Nodes == old(Nodes)[c := old(Nodes)[c] + [n]]
      ensures SCCMap == old(SCCMap)[n := c]
    {
      DFSNumber := DFSNumber[n := -1];
      LowLink := LowLink[n := -1];
      Nodes := Nodes[c := Nodes[c] + [n]];
      SCCMap := SCCMap[n := c];
    }

    ghost function Now(): Tables
      reads this`DFSNumber, this`LowLink, this`SCCMap, this`Nodes
    {
      Tables(DFSNumber, LowLink, SCCMap, Nodes)
    }

    method InsertMember(c: SccId, n: Vertex)
      requires c in Nodes && Distinct(Nodes[c]) && n !in Elements(Nodes[c])
      modifies this`DFSNumber, this`LowLink, this`Nodes, this`SCCMap
      ensures PutIn(old(Now()), Now(), c, {n})
    {
      hide PutIn;
      PutOne(Now(), c, n);
      Insert(c, n);
    }

    /** The loop of formSCC: pop the nodes numbered after the root into the new component. */
    method TakeAbove(c: SccId, rootN: Vertex, nodeStack: seq<Vertex>, ghost cut: nat) returns (rest: seq<Vertex>)
      requires c in Nodes && Nodes[c] == [] && cut <= |nodeStack| && Distinct(nodeStack)
      requires rootN in DFSNumber && rootN !in nodeStack
      requires forall k :: 0 <= k < |nodeStack| ==> nodeStack[k] in DFSNumber
      requires forall k :: 0 <= k < cut ==> DFSNumber[nodeStack[k]] <= DFSNumber[rootN]
      requires forall k :: cut <= k < |nodeStack| ==> DFSNumber[nodeStack[k]] > DFSNumber[rootN]
      modifies this`DFSNumber, this`LowLink, this`Nodes, this`SCCMap
      ensures rest == nodeStack[..cut] && PutIn(old(Now()), Now(), c, Elements(nodeStack[cut..]))
    {
      hide PutIn, Distinct, Elements;
      rest := nodeStack;
      ghost var taken: set<Vertex> := {};
      assert Distinct(Nodes[c]) && Elements(Nodes[c]) == {} by { NoElements(); }
      PutNothing(Now(), c);
      AboveNone(nodeStack);
      AboveNot(rootN, nodeStack);
      while |rest| > 0 && DFSNumber[rest[|rest| - 1]] > DFSNumber[rootN]
        invariant cut <= |rest| <= |nodeStack| && rest == nodeStack[..|rest|] && Distinct(rest)
        invariant taken == Elements(nodeStack[|rest|..]) && taken !! Elements(rest) && rootN !in taken
        invariant PutIn(old(Now()), Now(), c, taken)
        invariant forall k :: 0 <= k < |rest| ==> rest[k] in DFSNumber && DFSNumber[rest[k]] == old(DFSNumber)[rest[k]]
        invariant rootN in DFSNumber && DFSNumber[rootN] == old(DFSNumber)[rootN]
      {
        var n := rest[|rest| - 1];
        ghost var t := Now();
        PutFacts(old(Now()), t, c, taken);
        LastElement(rest);
        AboveNext(nodeStack, |rest| - 1);
        rest := rest[..|rest| - 1];
        InsertMember(c, n);
        PutThen(old(Now()), t, Now(), c, taken, {n});
        PutFacts(old(Now()), Now(), c, taken + {n});
        NotAmong(rest, n, taken);
        taken := taken + {n};
      }
    }

    /** The root and the nodes numbered after it become the members of c. */
    method TakeMembers(c: SccId, rootN: Vertex, nodeStack: seq<Vertex>, ghost cut: nat) returns (rest: seq<Vertex>)
      requires CanForm(Callees, Calls, SCCMap, ParentSCCs.Keys, DFSNumber, rootN, nodeStack, cut)
      requires c in Nodes && Nodes[c] == []
      modifies this`DFSNumber, this`LowLink, this`Nodes, this`SCCMap
      ensures rest == nodeStack[..cut]
      ensures DFSNumber == Marked(old(DFSNumber), Taken(rootN, nodeStack, cut))
      ensures LowLink == Marked(old(LowLink), Taken(rootN, nodeStack, cut))
      ensures c in Nodes && Nodes == old(Nodes)[c := Nodes[c]]
      ensures SCCMap == Joined(old(SCCMap), Taken(rootN, nodeStack, cut), c)
      ensures Elements(Nodes[c]) == Taken(rootN, nodeStack, cut) && Distinct(Nodes[c])
    {
      hide PutIn, Distinct, Elements, Marked, Joined, CanForm, Taken;
      ghost var t := Now();
      NoElements();
      CanFormFacts(Callees, Calls, SCCMap, ParentSCCs.Keys, DFSNumber, rootN, nodeStack, cut);
      rest := TakeAbove(c, rootN, nodeStack, cut);
      ghost var t' := Now();
      PutFacts(t, t', c, Elements(nodeStack[cut..]));
      InsertMember(c, rootN);
      PutThen(t, t', Now(), c, Elements(nodeStack[cut..]), {rootN});
      PutTaken(t, Now(), c, rootN, nodeStack, cut);
    }

    method FormSCC(rootN: Vertex, nodeStack: seq<Vertex>, ghost cut: nat)
      returns (newSCC: SccId, rest: seq<Vertex>, ghost kids: set<SccId>)
      requires Lists(Callees, Calls)
               && CanForm(Callees, Calls, SCCMap, ParentSCCs.Keys, DFSNumber, rootN, nodeStack, cut)
      requires NextSCC !in Nodes && NextSCC !in ParentSCCs
      modifies this`DFSNumber, this`LowLink, this`Nodes, this`SCCMap, this`ParentSCCs, this`LeafSCCs, this`NextSCC
      ensures rest == nodeStack[..cut] && newSCC == old(NextSCC) && NextSCC == newSCC + 1
      ensures DFSNumber == Marked(old(DFSNumber), Taken(rootN, nodeStack, cut))
      ensures LowLink == Marked(old(LowLink), Taken(rootN, nodeStack, cut))
      ensures newSCC in Nodes && Nodes == old(Nodes)[newSCC := Nodes[newSCC]]
      ensures SCCMap == Joined(old(SCCMap), Taken(rootN, nodeStack, cut), newSCC)
      ensures Elements(Nodes[newSCC]) == Taken(rootN, nodeStack, cut) && Distinct(Nodes[newSCC])
      ensures ParentSCCs.Keys == old(ParentSCCs).Keys + {newSCC} && ParentSCCs[newSCC] == {}
      ensures forall d ::
                d in old(ParentSCCs) ==> ParentSCCs[d] == old(ParentSCCs)[d] + (if d in kids then {newSCC} else {})
      ensures KidsOf(Calls, SCCMap, Nodes[newSCC], newSCC, kids)
      ensures LeafSCCs == old(LeafSCCs) + (if kids == {} then [newSCC] else [])
    {
      hide Distinct, Elements, Marked, Joined, KidsOf, Lists, CanForm, Taken, Gained;
      newSCC := NextSCC;
      NextSCC := NextSCC + 1;
      Nodes := Nodes[newSCC := []];
      rest := TakeMembers(newSCC, rootN, nodeStack, cut);
      ParentSCCs := ParentSCCs[newSCC := {}];
      FormReady(Callees, Calls, old(SCCMap), old(ParentSCCs).Keys, old(DFSNumber), rootN, nodeStack, cut, newSCC,
        Nodes[newSCC], SCCMap);
      var isLeaf;
      isLeaf, kids := ConnectToChildren(newSCC);
      NewGained(Calls, SCCMap, Nodes[newSCC], old(ParentSCCs), ParentSCCs, kids, newSCC);
      if isLeaf {
        LeafSCCs := LeafSCCs + [newSCC];
      }
    }

    /** Number an unvisited callee and make it the end of the path. */
    method Visit(n: Vertex, ghost i: nat, child: Vertex)
      requires Exploring(Callees, Calls, SCCMap.Keys, DFSStack + [Frame(n, i)], PendingSCCStack, W) && Synced()
      requires n in Callees && i < |Callees[n]| && Callees[n][i] == Some(child) && W.D(child) == 0
      modifies this`DFSNumber, this`LowLink, this`DFSStack, this`NextDFSNumber, this`W
      ensures Synced() && DFSStack == old(DFSStack) + [Frame(n, 0)]
      ensures Exploring(Callees, Calls, SCCMap.Keys, DFSStack + [Frame(child, 0)], PendingSCCStack, W)
      ensures Known() == old(Known()) + {child} && child !in old(Known()) && child in Callees
    {
      hide Exploring;
      VisitStep(Callees, Calls, SCCMap.Keys, DFSStack, PendingSCCStack, W, n, i, 0, child);
      DFSStack := DFSStack + [Frame(n, 0)];
      W := Descend(W, child);
      DFSNumber := DFSNumber[child := NextDFSNumber];
      LowLink := LowLink[child := NextDFSNumber];
      NextDFSNumber := NextDFSNumber + 1;
    }

    /** Take the low link of a callee that has a number. */
    method Lower(n: Vertex, ghost i: nat, child: Vertex)
      requires Exploring(Callees, Calls, SCCMap.Keys, DFSStack + [Frame(n, i)], PendingSCCStack, W) && Synced()
      requires n in Callees && i < |Callees[n]| && Callees[n][i] == Some(child) && W.D(child) != 0
      modifies this`LowLink, this`W
      ensures Synced() && Known() == old(Known())
      ensures Exploring(Callees, Calls, SCCMap.Keys, DFSStack + [Frame(n, i + 1)], PendingSCCStack, W)
    {
      hide Exploring;
      ChildListed(Callees, Calls, SCCMap.Keys, DFSStack + [Frame(n, i)], PendingSCCStack, W, n, i);
      TopInPath(Callees, Calls, SCCMap.Keys, DFSStack, PendingSCCStack, W, n, i);
      ScanStep(Callees, Calls, SCCMap.Keys, DFSStack, PendingSCCStack, W, n, i, child);
      assert n in LowLink && Scan(W, n, child).Active() == W.Active();
      W := Scan(W, n, child);
      if LowLink[child] >= 0 && LowLink[child] < LowLink[n] {
        LowLink := LowLink[n := LowLink[child]];
      }
    }

    /** The inner loop of getNextSCCInPostOrder: scan callees from slot i0 of n0, descending
        into unvisited ones, until the node at the end of the path has none left. */
    method Explore(n0: Vertex, i0: nat) returns (n: Vertex)
      requires Exploring(Callees, Calls, SCCMap.Keys, DFSStack + [Frame(n0, i0)], PendingSCCStack, W) && Synced()
      modifies this`DFSNumber, this`LowLink, this`DFSStack, this`NextDFSNumber, this`W
      ensures n in Callees && Synced()
      ensures Exploring(Callees, Calls, SCCMap.Keys, DFSStack + [Frame(n, |Callees[n]|)], PendingSCCStack, W)
      ensures old(Known()) <= Known()
      ensures Known() <= Callees.Keys
      ensures Known() == old(Known()) ==> DFSStack == old(DFSStack)
      ensures AllReachable(Calls, old(Known()), Known())
    {
      hide Exploring, AllReachable;
      n := n0;
      var i: nat := i0;
      SelfReachable(Calls, Known());
      NumbersTotal(Callees, Calls, SCCMap.Keys, DFSStack + [Frame(n, i)], PendingSCCStack, W);
      TopInPath(Callees, Calls, SCCMap.Keys, DFSStack, PendingSCCStack, W, n, i);
      while i < |Callees[n]|
        invariant n in Callees && n in Known() && i <= |Callees[n]| && Synced()
        invariant Exploring(Callees, Calls, SCCMap.Keys, DFSStack + [Frame(n, i)], PendingSCCStack, W)
        invariant old(Known()) <= Known() <= Callees.Keys
        invariant Known() == old(Known()) ==> DFSStack == old(DFSStack)
        invariant AllReachable(Calls, old(Known()), Known())
        decreases Callees.Keys - Known(), |Callees[n]| - i
      {
        var slot := Callees[n][i];
        if slot.None? {
          SkipStep(Callees, Calls, SCCMap.Keys, DFSStack, PendingSCCStack, W, n, i);
          i := i + 1;
        } else {
          var child := slot.value;
          ChildListed(Callees, Calls, SCCMap.Keys, DFSStack + [Frame(n, i)], PendingSCCStack, W, n, i);
          if DFSNumber[child] == 0 {
            ReachableStep(Calls, old(Known()), Known(), n, child);
            Visit(n, i, child);
            n, i := child, 0;
          } else {
            Lower(n, i, child);
            i := i + 1;
          }
        }
      }
    }

    /** The component of n, formed from the top of the pending stack. */
    method FormRoot(n: Vertex, ghost w: Walk, ghost cut: nat) returns (c: SccId, ghost kids: set<SccId>)
      requires Lists(Callees, Calls)
               && CanForm(Callees, Calls, SCCMap, ParentSCCs.Keys, DFSNumber, n, PendingSCCStack, cut)
      requires Taken(n, PendingSCCStack, cut) == Component(w, n) && Component(w, n) != {}
               && Component(w, n) !! SCCMap.Keys
      requires NextSCC !in Nodes && NextSCC !in ParentSCCs
      modifies this`DFSNumber, this`LowLink, this`Nodes, this`SCCMap, this`ParentSCCs, this`LeafSCCs, this`NextSCC,
        this`PendingSCCStack
      ensures PendingSCCStack == old(PendingSCCStack)[..cut] && c == old(NextSCC) && NextSCC == c + 1
      ensures DFSNumber == Marked(old(DFSNumber), Component(w, n)) && LowLink == Marked(old(LowLink), Component(w, n))
      ensures c in Nodes && Nodes == old(Nodes)[c := Nodes[c]]
      ensures SCCMap == Joined(old(SCCMap), Component(w, n), c) && Elements(Nodes[c]) == Component(w, n)
      ensures Formed(Calls, old(Groups()), Groups(), c, Component(w, n), Nodes[c], kids)
    {
      hide CanForm, Lists, KidsOf, Marked, Component, Taken, Distinct, Elements, Joined, Ids;
      var rest;
      c, rest, kids := FormSCC(n, PendingSCCStack, cut);
      IdsAppend(old(LeafSCCs), c);
      PendingSCCStack := rest;
    }

    /** Form the component of a root whose callees are all scanned. */
    method FormWaiting(n: Vertex) returns (c: SccId, ghost kids: set<SccId>, ghost cut: nat)
      requires n in Callees && Synced() && Tabled(Groups(), Nodes, NextSCC, NextRank) && Groups().Valid(Calls)
      requires Exploring(Callees, Calls, SCCMap.Keys, DFSStack + [Frame(n, |Callees[n]|)], PendingSCCStack, W)
      requires W.L(n) == W.D(n)
      modifies this`DFSNumber, this`LowLink, this`Nodes, this`SCCMap, this`ParentSCCs, this`LeafSCCs, this`NextSCC,
        this`PendingSCCStack
      ensures CutAt(old(PendingSCCStack), W, n, cut) && IsScc(Calls, Component(W, n))
              && Closed(Calls, old(SCCMap).Keys + Component(W, n))
      ensures PendingSCCStack == old(PendingSCCStack)[..cut] && c == old(NextSCC) && NextSCC == c + 1
      ensures DFSNumber == Marked(old(DFSNumber), Component(W, n)) && LowLink == Marked(old(LowLink), Component(W, n))
      ensures c !in old(Nodes) && c in Nodes && Nodes == old(Nodes)[c := Nodes[c]]
              && Elements(Nodes[c]) == Component(W, n)
      ensures SCCMap.Keys == old(SCCMap).Keys + Component(W, n) && Component(W, n) !! old(SCCMap).Keys
      ensures Formed(Calls, old(Groups()), Groups(), c, Component(W, n), Nodes[c], kids)
    {
      hide Exploring, CanForm, Tabled, Lists, Forest.Valid, CutAt, KidsOf, Marked, IsScc, Closed, Component, Taken,
           Distinct, Elements;
      hide Joined, Ids, EntriesOk, Formed, Walk.Active, Walk.L, Walk.D;
      ghost var f := Groups();
      FreshId(Calls, f, Nodes, NextSCC, NextRank);
      cut := RootReady(Callees, Calls, f, DFSStack, PendingSCCStack, W, n);
      c, kids := FormRoot(n, W, cut);
      JoinedKeys(f.of, Component(W, n), c);
    }

    /** The component c has been formed from a root n: it has a rank, and its members have left the walk. */
    ghost method TakeOut(n: Vertex, c: SccId, kids: set<SccId>, cut: nat, f: Forest, pending: seq<Vertex>,
                         nodes: map<SccId, seq<Vertex>>)
      requires n in Callees && c in Nodes
               && Exploring(Callees, Calls, f.of.Keys, DFSStack + [Frame(n, |Callees[n]|)], pending, W)
      requires W.L(n) == W.D(n) && CutAt(pending, W, n, cut) && f.Valid(Calls) && Tabled(f, nodes, c, NextRank)
               && Rank == f.rank
      requires DFSNumber == Marked(W.dfs, Component(W, n)) && LowLink == Marked(W.low, Component(W, n))
               && W.next == NextDFSNumber
      requires IsScc(Calls, Component(W, n)) && Closed(Calls, f.of.Keys + Component(W, n))
      requires Formed(Calls, f, Groups(), c, Component(W, n), Nodes[c], kids)
      modifies this`W, this`Rank, this`NextRank
      ensures Exploring(Callees, Calls, SCCMap.Keys, DFSStack, pending[..cut], W) && Synced()
      ensures Tabled(Groups(), nodes[c := Nodes[c]], c + 1, NextRank) && Groups().Valid(Calls)
      ensures f.ParentsExact(Calls) ==> ParentsExact()
      ensures f.LeavesExact(Calls) ==> LeavesExact()
      ensures Known() == f.of.Keys + old(W).Active() && n in SCCMap && n !in f.of
      ensures Rank == old(Rank)[c := old(NextRank)] && NextRank == old(NextRank) + 1
    {
      hide Exploring, Tabled, Forest.Valid, Forest.ParentsExact, Forest.LeavesExact, CutAt, Form, Marked, IsScc,
           Closed, Component, Formed;
      hide Walk.Active, Walk.L, Walk.D, Elements, Ids;
      ghost var f1, w := Groups(), W;
      W := Form(w, n, DFSNumber, LowLink);
      FormedWalk(w, n, DFSNumber, LowLink);
      Rank := Rank[c := NextRank];
      NextRank := NextRank + 1;
      RootDone(Callees, Calls, f, f1, Groups(), nodes, c, Nodes[c], kids, old(NextRank), DFSStack, pending, w, n, cut,
        DFSNumber, LowLink);
    }

    /** Form the component of such a root and take it out of the walk. */
    method CompleteRoot(n: Vertex) returns (c: SccId)
      requires n in Callees && Synced() && Tabled(Groups(), Nodes, NextSCC, NextRank) && Groups().Valid(Calls)
      requires Exploring(Callees, Calls, SCCMap.Keys, DFSStack + [Frame(n, |Callees[n]|)], PendingSCCStack, W)
      requires W.L(n) == W.D(n)
      modifies this`DFSNumber, this`LowLink, this`Nodes, this`SCCMap, this`ParentSCCs, this`LeafSCCs,
               this`NextSCC, this`PendingSCCStack, this`W, this`Rank, this`NextRank
      ensures Exploring(Callees, Calls, SCCMap.Keys, DFSStack, PendingSCCStack, W) && Synced()
      ensures Tabled(Groups(), Nodes, NextSCC, NextRank) && Groups().Valid(Calls)
      ensures old(ParentsExact()) ==> ParentsExact()
      ensures old(LeavesExact()) ==> LeavesExact()
      ensures c !in old(Nodes) && c in Nodes && Nodes == old(Nodes)[c := Nodes[c]]
      ensures IsScc(Calls, Elements(Nodes[c])) && Elements(Nodes[c]) !! old(SCCMap).Keys
      ensures SCCMap.Keys == old(SCCMap).Keys + Elements(Nodes[c]) && Known() == old(Known()) && n in SCCMap
              && n !in old(SCCMap)
      ensures Rank == old(Rank)[c := old(NextRank)] && NextRank == old(NextRank) + 1
    {
      hide Exploring, Tabled, Forest.Valid, Forest.ParentsExact, Forest.LeavesExact, CutAt, Marked, IsScc, Closed,
           Component, Formed;
      hide Walk.Active, Walk.L, Walk.D, Elements, Ids;
      ghost var f, kids, cut := Groups(), {}, 0;
      c, kids, cut := FormWaiting(n);
      TakeOut(n, c, kids, cut, f, old(PendingSCCStack), old(Nodes));
    }

    /** Every node the walk has met is reachable from an entry. */
    ghost predicate Sourced()
      reads this
    {
      AllReachable(Calls, Entries, Known())
    }

    /** Take the next entry that is unvisited off the list. */
    method NextEntry() returns (n: Option<Vertex>)
      requires EntriesFit() && (forall x :: x in DFSNumber && DFSNumber[x] != 0 ==> x in Known())
               && DFSNumber.Keys == Callees.Keys
      modifies this`SCCEntryNodes
      ensures n.None? ==> EntriesFit() && Entries <= Known()
      ensures n.Some? ==> n.value in Callees && DFSNumber[n.value] == 0
      ensures n.Some? ==> EntriesOk(Entries, SCCEntryNodes + [n.value], Callees.Keys, Known())
    {
      while |SCCEntryNodes| > 0
        invariant EntriesFit()
      {
        var x := SCCEntryNodes[|SCCEntryNodes| - 1];
        assert x in SCCEntryNodes && x in Entries;
        ghost var before := SCCEntryNodes;
        SCCEntryNodes := SCCEntryNodes[..|SCCEntryNodes| - 1];
        assert before == SCCEntryNodes + [x];
        if DFSNumber[x] == 0 {
          return Some(x);
        }
      }
      n := None;
    }

    /** Number the entry x and put it at the start of the path. */
    method Enter(x: Vertex)
      requires Exploring(Callees, Calls, SCCMap.Keys, [], PendingSCCStack, W) && Synced()
      requires x in Callees && x in DFSNumber && DFSNumber[x] == 0
      modifies this`DFSNumber, this`LowLink, this`NextDFSNumber, this`W
      ensures Synced() && Known() == old(Known()) + {x}
      ensures Exploring(Callees, Calls, SCCMap.Keys, [] + [Frame(x, 0)], PendingSCCStack, W)
    {
      hide Exploring;
      StartStep(Callees, Calls, SCCMap.Keys, PendingSCCStack, W, x);
      W := Descend(W.(next := 1), x);
      DFSNumber := DFSNumber[x := 1];
      LowLink := LowLink[x := 1];
      NextDFSNumber := 2;
    }

    /** Pick up the suspended walk, or start one at the next entry. */
    method Resume() returns (at: Option<Frame>)
      requires Exploring(Callees, Calls, SCCMap.Keys, DFSStack, PendingSCCStack, W) && Synced() && EntriesFit()
      modifies this`DFSStack, this`SCCEntryNodes, this`DFSNumber, this`LowLink, this`NextDFSNumber, this`W
      ensures Synced() && EntriesFit()
      ensures at.None? ==>
                Exploring(Callees, Calls, SCCMap.Keys, DFSStack, PendingSCCStack, W) && Known() == old(Known())
      ensures at.None? ==> Entries <= SCCMap.Keys
      ensures at.Some? ==> Exploring(Callees, Calls, SCCMap.Keys, DFSStack + [at.value], PendingSCCStack, W)
      ensures at.Some? ==>
                Known() == old(Known()) || (at.value.node in Entries && Known() == old(Known()) + {at.value.node})
    {
      hide Exploring, EntriesOk, Ids;
      if |DFSStack| > 0 {
        var top := DFSStack[|DFSStack| - 1];
        DFSStack := DFSStack[..|DFSStack| - 1];
        assert DFSStack + [top] == old(DFSStack);
        return Some(top);
      }
      assert DFSStack == [];
      NothingActive(Callees, Calls, SCCMap.Keys, PendingSCCStack, W);
      NumbersTotal(Callees, Calls, SCCMap.Keys, [], PendingSCCStack, W);
      var n := NextEntry();
      if n.None? {
        return None;
      }
      EntryMet(Entries, SCCEntryNodes, Callees.Keys, Known(), n.value);
      Enter(n.value);
      at := Some(Frame(n.value, 0));
    }

    /** The node in hand waits for its root; go back to the node below it on the stack. */
    method Retire(n: Vertex) returns (m: Vertex, i: nat)
      requires n in Callees
               && Exploring(Callees, Calls, SCCMap.Keys, DFSStack + [Frame(n, |Callees[n]|)], PendingSCCStack, W)
      requires Synced() && EntriesFit() && W.L(n) != W.D(n)
      modifies this`PendingSCCStack, this`DFSStack, this`W
      ensures Exploring(Callees, Calls, SCCMap.Keys, DFSStack + [Frame(m, i)], PendingSCCStack, W)
      ensures Synced() && EntriesFit() && Known() == old(Known()) && |DFSStack| < |old(DFSStack)|
    {
      hide Exploring, EntriesOk, Ids;
      PendStep(Callees, Calls, SCCMap.Keys, DFSStack, PendingSCCStack, W, n);
      PendingSCCStack := PendingSCCStack + [n];
      W := Pend(W, n);
      PopFrame(DFSStack);
      m, i := DFSStack[|DFSStack| - 1].node, DFSStack[|DFSStack| - 1].it;
      DFSStack := DFSStack[..|DFSStack| - 1];
    }

    /** Walk until the node in hand is a root with nothing left to scan. */
    method WalkToRoot(n0: Vertex, i0: nat) returns (n: Vertex)
      requires Exploring(Callees, Calls, SCCMap.Keys, DFSStack + [Frame(n0, i0)], PendingSCCStack, W)
      requires Synced() && EntriesFit()
      modifies this`DFSNumber, this`LowLink, this`DFSStack, this`PendingSCCStack, this`NextDFSNumber, this`W
      ensures n in Callees
              && Exploring(Callees, Calls, SCCMap.Keys, DFSStack + [Frame(n, |Callees[n]|)], PendingSCCStack, W)
      ensures W.L(n) == W.D(n) && Synced() && EntriesFit()
      ensures AllReachable(Calls, old(Known()), Known())
    {
      hide Exploring, AllReachable, EntriesOk;
      n := n0;
      var i := i0;
      SelfReachable(Calls, Known());
      while true
        invariant Exploring(Callees, Calls, SCCMap.Keys, DFSStack + [Frame(n, i)], PendingSCCStack, W)
        invariant Synced() && EntriesFit() && AllReachable(Calls, old(Known()), Known())
        decreases Callees.Keys - Known(), |DFSStack|
      {
        ghost var k := Known();
        n := Explore(n, i);
        ReachableOnwards(Calls, old(Known()), k, Known());
        EntriesGrow(Entries, SCCEntryNodes, Callees.Keys, k, Known());
        TopInPath(Callees, Calls, SCCMap.Keys, DFSStack, PendingSCCStack, W, n, |Callees[n]|);
        ExploringKeys(Callees, Calls, SCCMap.Keys, DFSStack + [Frame(n, |Callees[n]|)], PendingSCCStack, W);
        if LowLink[n] == DFSNumber[n] {
          return;
        }
        n, i := Retire(n);
      }
    }

    /** Walk to the next root and form its component. */
    method Advance(n0: Vertex, i0: nat) returns (c: SccId)
      requires Exploring(Callees, Calls, SCCMap.Keys, DFSStack + [Frame(n0, i0)], PendingSCCStack, W)
      requires Synced() && EntriesFit() && Tabled(Groups(), Nodes, NextSCC, NextRank) && Groups().Valid(Calls)
      requires IndexFits(Callees, CalleeIndexMap)
      modifies this`DFSNumber, this`LowLink, this`Nodes, this`SCCMap, this`ParentSCCs, this`LeafSCCs, this`DFSStack,
               this`NextSCC, this`PendingSCCStack, this`NextDFSNumber, this`W, this`Rank, this`NextRank
      ensures Valid()
      ensures old(ParentsExact()) ==> ParentsExact()
      ensures old(LeavesExact()) ==> LeavesExact()
      ensures AllReachable(Calls, old(Known()), Known())
      ensures c !in old(Nodes) && c in Nodes && Nodes == old(Nodes)[c := Nodes[c]]
      ensures IsScc(Calls, Elements(Nodes[c])) && Elements(Nodes[c]) !! old(SCCMap).Keys
      ensures SCCMap.Keys == old(SCCMap).Keys + Elements(Nodes[c]) && old(SCCMap).Keys < SCCMap.Keys
      ensures Rank == old(Rank)[c := old(NextRank)] && NextRank == old(NextRank) + 1
    {
      hide Exploring, Tabled, Forest.Valid, AllReachable, IsScc, Forest.ParentsExact, Forest.LeavesExact, Elements,
           IndexFits, EntriesOk, Ids;
      var n := WalkToRoot(n0, i0);
      c := CompleteRoot(n);
    }

    /** getNextSCCInPostOrder: resume or restart the walk until the next component is complete. */
    method GetNextSCCInPostOrder() returns (r: Option<SccId>)
      requires Valid()
      modifies this
      ensures Valid() && Callees == old(Callees) && Calls == old(Calls) && Entries == old(Entries)
      ensures old(ParentsExact()) ==> ParentsExact()
      ensures old(LeavesExact()) ==> LeavesExact()
      ensures old(Sourced()) ==> Sourced()
      // No component is left: every entry, and all it reaches, is in one.
      ensures r.None? ==>
                Nodes == old(Nodes) && SCCMap == old(SCCMap) && Rank == old(Rank) && NextRank == old(NextRank)
                  && Entries <= SCCMap.Keys
      // One more component, later than all before it, exactly one class of mutual reachability.
      ensures r.Some? ==> r.value !in old(Nodes) && r.value in Nodes && Nodes == old(Nodes)[r.value := Nodes[r.value]]
      ensures r.Some? ==> IsScc(Calls, Elements(Nodes[r.value])) && Elements(Nodes[r.value]) !! old(SCCMap).Keys
      ensures r.Some? ==> SCCMap.Keys == old(SCCMap).Keys + Elements(Nodes[r.value]) && old(SCCMap).Keys < SCCMap.Keys
      ensures r.Some? ==> Rank == old(Rank)[r.value := old(NextRank)] && NextRank == old(NextRank) + 1
    {
      hide Exploring, Tabled, Forest.Valid, AllReachable, IsScc, Forest.ParentsExact, Forest.LeavesExact, Elements,
           IndexFits, EntriesOk, Ids;
      var at := Resume();
      if at.None? {
        return None;
      }
      var n, i := at.value.node, at.value.it;
      if old(Sourced()) && Known() != old(Known()) {
        EntryReachable(Calls, Entries, old(Known()), n);
      }
      ghost var k := Known();
      var c := Advance(n, i);
      if old(Sourced()) {
        ReachableOnwards(Calls, Entries, k, Known());
      }
      r := Some(c);
    }

    /** The post-order walk over a whole call graph, as postorder_sccs() iterates it. */
    method PostOrderSCCs() returns (sccs: seq<SccId>)
      requires Valid() && Sourced() && Nodes == map[]
      modifies this
      ensures Valid() && Callees == old(Callees) && Calls == old(Calls) && Entries == old(Entries)
      ensures IsPostOrder(Calls, Entries, Nodes, sccs)
      ensures old(ParentsExact()) ==> ParentsExact()
      ensures old(LeavesExact()) ==> LeavesExact()
    {
      hide IsScc, Forest.ParentsExact, Forest.LeavesExact, Forest.Valid, Exploring, Tabled, AllReachable, Elements,
           IndexFits, EntriesOk, Ids;
      sccs := [];
      assert Rank.Keys == {} by { KeysTabled(Groups(), Nodes, NextSCC, NextRank); }
      var c := GetNextSCCInPostOrder();
      while c.Some?
        invariant Valid() && Sourced() && Callees == old(Callees) && Calls == old(Calls) && Entries == old(Entries)
        invariant old(ParentsExact()) ==> ParentsExact()
        invariant old(LeavesExact()) ==> LeavesExact()
        invariant c.None? ==> Entries <= SCCMap.Keys && RankedInOrder(Rank, NextRank, sccs)
        invariant c.Some? ==> RankedInOrder(Rank, NextRank, sccs + [c.value])
        decreases Callees.Keys - SCCMap.Keys, c.Some?
      {
        ghost var r, k, s := Rank, NextRank, sccs + [c.value];
        KeysTabled(Groups(), Nodes, NextSCC, NextRank);
        sccs := sccs + [c.value];
        c := GetNextSCCInPostOrder();
        NumbersTotal(Callees, Calls, SCCMap.Keys, DFSStack, PendingSCCStack, W);
        if c.Some? {
          RankedNext(r, k, s, c.value);
        }
      }
      FewerReachable(Calls, Entries, Known(), SCCMap.Keys);
      WalkComplete(Calls, Entries, Groups(), Nodes, NextSCC, NextRank, sccs);
    }

    // -------------------------------------------------------------- queries and updates of SCCs

    /** Push every parent in ps; each costs at most k further steps. */
    static method PushAll(worklist: seq<SccId>, ps: set<SccId>, ghost f: Forest, ghost c: SccId, ghost k: nat)
      returns (w: seq<SccId>)
      requires forall i :: 0 <= i < |worklist| ==> worklist[i] in f.rank
      requires forall p :: p in ps ==> p in f.rank && Steps(|Later(f, p)|) <= k
      ensures forall i :: 0 <= i < |w| ==> w[i] in f.rank
      ensures AnyBelow(f, c, w) <==> AnyBelow(f, c, worklist) || AnyOf(f, c, ps)
      ensures Work(f, w) <= Work(f, worklist) + Budget(|ps|, k)
    {
      hide ProperAncestor, AnyBelow, AnyOf, Later, Work, Steps, Budget;
      w := worklist;
      var rest := ps;
      ghost var pushed: nat := 0;
      NoneOf(f, c);
      NoBudget(k);
      assert ps - rest == {};
      while rest != {}
        invariant rest <= ps && pushed + |rest| == |ps|
        invariant forall i :: 0 <= i < |w| ==> w[i] in f.rank
        invariant AnyBelow(f, c, w) <==> AnyBelow(f, c, worklist) || AnyOf(f, c, ps - rest)
        invariant Work(f, w) <= Work(f, worklist) + Budget(pushed, k)
      {
        var p :| p in rest;
        WorkPush(f, w, p);
        AnyBelowPush(f, c, w, p);
        AnyOfAdd(f, c, ps - rest, p);
        MovedOver(ps, rest, p);
        BudgetStep(pushed, k);
        rest, pushed := rest - {p}, pushed + 1;
        w := w + [p];
      }
      assert ps - rest == ps;
    }

    /** SCC::isDescendantOf: walk up the parents of d looking for c, with no record of visits. */
    method IsDescendantOf(d: SccId, c: SccId) returns (found: bool)
      requires Valid() && d in Nodes
      ensures found <==> ProperAncestor(Groups(), c, d)
      ensures ParentsExact() && c in Nodes ==>
                (found <==> c != d && exists u, v :: u in Nodes[c] && v in Nodes[d] && Reach(Calls, u, v))
    {
      hide Exploring, Tabled, Forest.Linked, Forest.Partition, Forest.ParentsLater, Forest.ParentsExact,
           ProperAncestor, AnyBelow, Later, EntriesOk, Ids;
      ghost var f := Groups();
      KeysTabled(f, Nodes, NextSCC, NextRank);
      if ParentsExact() && c in Nodes {
        AncestorIsCaller(Calls, f, c, d);
        MembersListed(f, Nodes, NextSCC, NextRank, c);
        MembersListed(f, Nodes, NextSCC, NextRank, d);
      }
      var worklist := [d];
      assert AnyBelow(f, c, []) <==> false by { NoneBelow(f, c); }
      AnyBelowPush(f, c, [], d);
      assert [] + [d] == worklist;
      while |worklist| > 0
        invariant forall i :: 0 <= i < |worklist| ==> worklist[i] in f.rank
        invariant ProperAncestor(f, c, d) <==> AnyBelow(f, c, worklist)
        decreases Work(f, worklist)
      {
        var x := worklist[|worklist| - 1];
        ghost var before := worklist;
        worklist := worklist[..|worklist| - 1];
        assert before == worklist + [x];
        assert x in f.rank;
        WorkPush(f, worklist, x);
        AnyBelowPush(f, c, worklist, x);
        StepUp(f, c, x);
        ParentsTotal(Calls, f, x);
        if c in ParentSCCs[x] {
          return true;
        }
        ghost var k := ParentsWork(Calls, f, x);
        worklist := PushAll(worklist, ParentSCCs[x], f, c, k);
      }
      NoneBelow(f, c);
      found := false;
    }

    method InsertEdgeInternal(u: Vertex, v: Vertex)
      requires Lists(Callees, Calls) && IndexFits(Callees, CalleeIndexMap) && u in Callees && v in Callees
      modifies this`Callees, this`CalleeIndexMap, this`Calls
      ensures Lists(Callees, Calls) && IndexFits(Callees, CalleeIndexMap) && Adds(old(Calls), Calls, u, v)
      ensures SlotAdded(old(Callees), old(CalleeIndexMap), Callees, CalleeIndexMap, u, v)
    {
      var slots, index := Callees[u] + [Some(v)], CalleeIndexMap[u];
      assert SlotsFit(Callees[u], index);
      if v !in index {
        index := index[v := |Callees[u]|];
      }
      assert slots[|slots| - 1] == Some(v) && forall k :: 0 <= k < |slots| - 1 ==> slots[k] == Callees[u][k];
      assert SlotsFit(slots, index);
      forall y
        ensures Edge(Calls + {(u, v)}, u, y) <==> Some(y) in slots
      {
        if Some(y) in Callees[u] {
          var k :| 0 <= k < |Callees[u]| && Callees[u][k] == Some(y);
        }
      }
      ListsSet(Callees, Calls, Calls + {(u, v)}, u, slots);
      CalleeIndexMap := CalleeIndexMap[u := index];
      Callees := Callees[u := slots];
      Calls := Calls + {(u, v)};
    }

    method RemoveEdgeInternal(u: Vertex, v: Vertex)
      requires Lists(Callees, Calls) && IndexFits(Callees, CalleeIndexMap) && u in Callees && v in CalleeIndexMap[u]
      modifies this`Callees, this`CalleeIndexMap, this`Calls
      ensures Lists(Callees, Calls) && IndexFits(Callees, CalleeIndexMap)
      ensures Drops(old(Calls), Calls, u, v) && Edge(old(Calls), u, v)
      ensures SlotCleared(old(Callees), old(CalleeIndexMap), Callees, CalleeIndexMap, u, v)
      // The edge is gone unless a second slot lists it.
      ensures Edge(Calls, u, v) <==> Some(v) in Callees[u]
    {
      var index := CalleeIndexMap[u];
      assert SlotsFit(Callees[u], index);
      var k := index[v];
      var slots := Callees[u][k := None];
      forall x
        ensures Some(x) in slots ==> Some(x) in Callees[u]
        ensures x != v && Some(x) in Callees[u] ==> Some(x) in slots
      {
        if x != v && Some(x) in Callees[u] {
          var j :| 0 <= j < |slots| && Callees[u][j] == Some(x);
          assert slots[j] == Some(x);
        }
      }
      assert SlotsFit(slots, index - {v});
      ghost var e' := if Some(v) in slots then Calls else Calls - {(u, v)};
      assert Edge(Calls, u, v);
      forall y
        ensures Edge(e', u, y) <==> Some(y) in slots
      {
        if Some(y) in Callees[u] {
          var j :| 0 <= j < |Callees[u]| && Callees[u][j] == Some(y);
        }
      }
      ListsSet(Callees, Calls, e', u, slots);
      CalleeIndexMap := CalleeIndexMap[u := index - {v}];
      Callees := Callees[u := slots];
      Calls := e';
    }

    /** Add an edge of a formed node; a suspended walk is not disturbed. */
    method Link(u: Vertex, v: Vertex)
      requires u in SCCMap && v in SCCMap && Valid()
      modifies this`Callees, this`CalleeIndexMap, this`Calls
      ensures Adds(old(Calls), Calls, u, v)
      ensures Exploring(Callees, Calls, SCCMap.Keys, DFSStack, PendingSCCStack, W) && IndexFits(Callees, CalleeIndexMap)
      ensures Callees.Keys == old(Callees).Keys
      ensures SlotAdded(old(Callees), old(CalleeIndexMap), Callees, CalleeIndexMap, u, v)
    {
      hide Exploring, Tabled, Forest.Valid, Lists, IndexFits, Adds, EntriesOk, Ids;
      GroupsClosed(Calls, Groups());
      ExploringLists(Callees, Calls, SCCMap.Keys, DFSStack, PendingSCCStack, W);
      NumbersTotal(Callees, Calls, SCCMap.Keys, DFSStack, PendingSCCStack, W);
      InsertEdgeInternal(u, v);
      AddsOutside(old(Calls), Calls, u, v, SCCMap.Keys);
      ExploringFrame(old(Callees), Callees, old(Calls), Calls, SCCMap.Keys, DFSStack, PendingSCCStack, W);
    }

    /** SCC::insertIntraSCCEdge: nothing changes about any SCC. */
    method InsertIntraSCCEdge(u: Vertex, v: Vertex)
      requires u in SCCMap && v in SCCMap && SCCMap[u] == SCCMap[v] && Valid()
      modifies this`Callees, this`CalleeIndexMap, this`Calls
      ensures Adds(old(Calls), Calls, u, v)
      ensures SlotAdded(old(Callees), old(CalleeIndexMap), Callees, CalleeIndexMap, u, v)
      ensures old(ParentsExact()) ==> ParentsExact()
      ensures old(LeavesExact()) ==> LeavesExact()
      ensures Valid()
    {
      hide Exploring, Tabled, Forest.Valid, Forest.ParentsExact, Forest.LeavesExact, Lists, IndexFits, Adds, EntriesOk,
           Ids, SlotAdded;
      ghost var f := Groups();
      Link(u, v);
      AddsValid(old(Calls), Calls, f, u, v);
      IntraInsertExact(old(Calls), Calls, f, u, v);
    }

    /** SCC::insertOutgoingEdge: the caller's component becomes a parent of its descendant. */
    method InsertOutgoingEdge(u: Vertex, v: Vertex)
      requires u in SCCMap && v in SCCMap && SCCMap[u] != SCCMap[v] && Valid()
      requires ProperAncestor(Groups(), SCCMap[u], SCCMap[v])
      modifies this`Callees, this`CalleeIndexMap, this`Calls, this`ParentSCCs
      ensures Adds(old(Calls), Calls, u, v)
      ensures SlotAdded(old(Callees), old(CalleeIndexMap), Callees, CalleeIndexMap, u, v)
      ensures ParentSCCs == old(ParentSCCs)[SCCMap[v] := old(ParentSCCs)[SCCMap[v]] + {SCCMap[u]}]
      ensures old(ParentsExact()) ==> ParentsExact()
      ensures old(ParentsExact()) && old(LeavesExact()) ==> LeavesExact()
      ensures Valid()
    {
      hide Exploring, Tabled, Forest.Valid, Forest.ParentsExact, Forest.LeavesExact, Lists, IndexFits, Adds, EntriesOk,
           Ids, ProperAncestor, SlotAdded;
      ghost var f, e := Groups(), Calls;
      HasRank(e, f, v);
      ParentsTotal(e, f, SCCMap[v]);
      Link(u, v);
      ParentSCCs := ParentSCCs[SCCMap[v] := ParentSCCs[SCCMap[v]] + {SCCMap[u]}];
      OutgoingDone(e, Calls, f, Groups(), u, v);
      SameTables(f, Groups(), Nodes, NextSCC, NextRank);
    }

    /** The inner loop of the scan below, over one node's slots. */
    method ScanSlots(slots: seq<Option<Vertex>>, c: SccId, d: SccId, outside0: bool, ghost later: seq<Vertex>)
      returns (toCallee: bool, outside: bool)
      requires forall k :: 0 <= k < |slots| && slots[k].Some? ==> slots[k].value in SCCMap
      ensures ScanCalls(SCCMap, Targets(slots) + later, c, d, outside0) ==
              if toCallee then (true, outside) else ScanCalls(SCCMap, later, c, d, outside)
    {
      hide ScanCalls, Targets;
      toCallee, outside := false, outside0;
      assert slots[0..] == slots;
      for j := 0 to |slots|
        invariant ScanCalls(SCCMap, Targets(slots) + later, c, d, outside0) ==
                  ScanCalls(SCCMap, Targets(slots[j..]) + later, c, d, outside)
      {
        TargetsNext(slots, j, later);
        if slots[j].Some? {
          var t := slots[j].value;
          ScanNext(SCCMap, t, Targets(slots[j + 1..]) + later, c, d, outside);
          if SCCMap[t] == d {
            return true, outside;
          }
          if SCCMap[t] != c {
            outside := true;
          }
        } else {
          assert [] + (Targets(slots[j + 1..]) + later) == Targets(slots[j + 1..]) + later;
        }
      }
      NoTargets(later);
      assert slots[|slots|..] == [];
    }

    /** Does c still call d, and was a call to a third component seen on the way? */
    method ScanOtherCalls(c: SccId, d: SccId) returns (toCallee: bool, outside: bool)
      requires c in Nodes && (forall n :: n in Nodes[c] ==> n in Callees)
      requires forall n, k :: n in Nodes[c] && n in Callees && 0 <= k < |Callees[n]| && Callees[n][k].Some? ==>
                 Callees[n][k].value in SCCMap
      ensures (toCallee, outside) == ScanCalls(SCCMap, AllTargets(Callees, Nodes[c]), c, d, false)
    {
      hide ScanCalls;
      toCallee, outside := false, false;
      var ns := Nodes[c];
      assert ns[0..] == ns;
      for i := 0 to |ns|
        invariant ScanCalls(SCCMap, AllTargets(Callees, ns), c, d, false) ==
                  ScanCalls(SCCMap, AllTargets(Callees, ns[i..]), c, d, outside)
      {
        var n: Vertex := ns[i];
        assert n in Nodes[c] && n in Callees && ns[i..][1..] == ns[i + 1..];
        toCallee, outside := ScanSlots(Callees[n], c, d, outside, AllTargets(Callees, ns[i + 1..]));
        if toCallee {
          return;
        }
      }
      ScanNothing(SCCMap, c, d, outside);
    }

    /** Of the calls that leave c, does the first in the order of its lists go to v's component? */
    ghost predicate FirstCallOut(c: SccId, v: Vertex)
      reads this`Nodes, this`SCCMap, this`Callees
    {
      c in Nodes && v in SCCMap && FirstCallOutGoesTo(SCCMap, AllTargets(Callees, Nodes[c]), c, SCCMap[v])
    }

    /** After a call from c to d is gone: c stays a parent of d if it still calls d, and becomes a leaf
        unless a call to a third component was seen. */
    method Disconnect(c: SccId, d: SccId) returns (ghost toCallee: bool, ghost outside: bool)
      requires c in Nodes && (forall n :: n in Nodes[c] ==> n in Callees) && d in ParentSCCs
      requires forall n, k :: n in Nodes[c] && n in Callees && 0 <= k < |Callees[n]| && Callees[n][k].Some? ==>
                 Callees[n][k].value in SCCMap
      modifies this`ParentSCCs, this`LeafSCCs
      ensures (toCallee, outside) == ScanCalls(SCCMap, AllTargets(Callees, Nodes[c]), c, d, false)
      ensures ParentSCCs == if toCallee then old(ParentSCCs) else old(ParentSCCs)[d := old(ParentSCCs)[d] - {c}]
      ensures Ids(LeafSCCs) == if outside then old(Ids(LeafSCCs)) else old(Ids(LeafSCCs)) + {c}
    {
      hide ScanCalls, AllTargets, Ids;
      var found, other := ScanOtherCalls(c, d);
      toCallee, outside := found, other;
      if !found {
        ParentSCCs := ParentSCCs[d := ParentSCCs[d] - {c}];
      }
      if !other {
        IdsAppend(LeafSCCs, c);
        LeafSCCs := LeafSCCs + [c];
      }
    }

    /** SCC::removeInterSCCEdge: no component changes; the caller's component stays a parent of the
        callee's exactly if it still calls it.  The leaf list stays exact unless, of the calls
        that still leave the caller's component, the first goes to the callee's component. */
    method RemoveInterSCCEdge(c: SccId, u: Vertex, v: Vertex)
      requires u in CalleeIndexMap && v in CalleeIndexMap[u]
      requires c in Nodes && u in SCCMap && v in SCCMap && c == SCCMap[u] != SCCMap[v] && Valid()
      modifies this`Callees, this`CalleeIndexMap, this`Calls, this`ParentSCCs, this`LeafSCCs
      ensures Drops(old(Calls), Calls, u, v)
      ensures SlotCleared(old(Callees), old(CalleeIndexMap), Callees, CalleeIndexMap, u, v)
      ensures Edge(Calls, u, v) <==> Some(v) in Callees[u]
      ensures SCCMap[v] in old(ParentSCCs)
              && ParentSCCs == if Groups().Calls(Calls, c, SCCMap[v]) then old(ParentSCCs)
                               else old(ParentSCCs)[SCCMap[v] := old(ParentSCCs)[SCCMap[v]] - {c}]
      ensures Ids(LeafSCCs) == if FirstCallOut(c, v) || Groups().IsLeaf(Calls, c) then old(Ids(LeafSCCs)) + {c}
                               else old(Ids(LeafSCCs))
      ensures old(ParentsExact()) ==> ParentsExact()
      ensures old(LeavesExact()) ==> (LeavesExact() <==> !FirstCallOut(c, v))
      ensures Valid()
    {
      hide Exploring, Tabled, Forest.Valid, Forest.ParentsExact, Forest.LeavesExact, Forest.IsLeaf, Lists, IndexFits,
           Drops, EntriesOk, Ids;
      hide ScanCalls, AllTargets, Distinct, Elements, FirstCallOutGoesTo;
      ghost var f, e := Groups(), Calls;
      var d := SCCMap[v];
      GroupsClosed(e, f);
      ParentsTotal(e, f, d);
      Unlink(u, v);
      InterDropValid(e, Calls, f, u, v);
      MembersOf(Callees, Calls, f, Nodes, NextSCC, NextRank, c);
      ghost var toCallee, outside := Disconnect(c, d);
      ScanIsCalls(Callees, Calls, f, Nodes[c], c, d);
      ScanStopsEarly(SCCMap, AllTargets(Callees, Nodes[c]), c, d);
      InterDone(e, Calls, f, Groups(), u, v, c, d, toCallee, outside);
      SameTables(f, Groups(), Nodes, NextSCC, NextRank);
      SameCalls(f, Groups(), Calls, c, d);
    }

    // -------------------------------------------------------------- taking a component apart

    /** Pop the nodes of ns into c, the last one first. */
    method PopInto(c: SccId, ns: seq<Vertex>)
      requires c in Nodes && Distinct(ns) && Distinct(Nodes[c]) && Elements(ns) !! Elements(Nodes[c])
      modifies this`DFSNumber, this`LowLink, this`Nodes, this`SCCMap
      ensures PutIn(old(Now()), Now(), c, Elements(ns))
    {
      hide PutIn, Distinct, Elements;
      var rest := ns;
      ghost var taken: set<Vertex> := {};
      PutNothing(Now(), c);
      assert Elements([]) == {} by { NoElements(); }
      while |rest| > 0
        invariant Elements(ns) == Elements(rest) + taken && taken !! Elements(rest) && Distinct(rest)
        invariant PutIn(old(Now()), Now(), c, taken)
      {
        var n := rest[|rest| - 1];
        ghost var t := Now();
        PutFacts(old(Now()), t, c, taken);
        LastElement(rest);
        rest := rest[..|rest| - 1];
        InsertMember(c, n);
        PutThen(old(Now()), t, Now(), c, taken, {n});
        taken := taken + {n};
      }
      assert rest == [] && taken == Elements(ns);
    }

    /** The whole walk rejoins c. */
    method Flush(c: SccId, n: Vertex, stack: seq<Frame>, pending: seq<Vertex>, ghost s: set<Vertex>)
      requires c in Nodes && Distinct(Nodes[c]) && s !! Elements(Nodes[c])
      requires s == {n} + Elements(pending) + Elements(StackNodes(stack))
      requires Distinct(pending) && Distinct(StackNodes(stack))
      requires n !in pending && n !in StackNodes(stack) && Elements(pending) !! Elements(StackNodes(stack))
      modifies this`DFSNumber, this`LowLink, this`Nodes, this`SCCMap
      ensures PutIn(old(Now()), Now(), c, s)
    {
      hide PutIn, Distinct, Elements, StackNodes;
      NotElement(n, pending);
      NotElement(n, StackNodes(stack));
      InsertMember(c, n);
      ghost var t1 := Now();
      PutFacts(old(Now()), t1, c, {n});
      PopInto(c, pending);
      ghost var t2 := Now();
      PutThen(old(Now()), t1, t2, c, {n}, Elements(pending));
      PutFacts(old(Now()), t2, c, {n} + Elements(pending));
      PopInto(c, StackNodes(stack));
      PutThen(old(Now()), t2, Now(), c, {n} + Elements(pending), Elements(StackNodes(stack)));
    }

    /** Has a component, or is being explored by the inner walk w. */
    ghost function Met(w: Walk): set<Vertex>
      reads this`SCCMap
    {
      SCCMap.Keys + w.Active()
    }

    ghost predicate Walks(k: Case, stack: seq<Frame>, pending: seq<Vertex>, w: Walk)
      reads this
    {
      && k.e == Calls && Inner(k, Callees, Groups(), NextSCC, DFSNumber, LowLink, stack, pending, w)
      && Placed(k, Nodes, NextSCC, Groups()) && k.c in Nodes
    }

    /** The short cut, taken when the node in hand calls a member that has rejoined c. */
    method Rejoin(n: Vertex, ghost i: nat, stack: seq<Frame>, pending: seq<Vertex>, c: SccId,
                  ghost k: Case, ghost w0: Walk) returns (ghost w: Walk)
      requires Walks(k, stack + [Frame(n, i)], pending, w0) && k.c == c
      requires n in Callees && i < |Callees[n]| && Callees[n][i].Some? && Groups().Has(Callees[n][i].value, c)
      modifies this`DFSNumber, this`LowLink, this`Nodes, this`SCCMap
      ensures Walks(k, [], [], w)
      ensures Met(w) == old(Met(w0))
      ensures OnlyMembers(k, old(DFSNumber), DFSNumber) && OnlyMembers(k, old(LowLink), LowLink)
    {
      hide Splitting, SplitStart, Exploring, Settled, ScanErased, Placed, Distinct, FreshWalk, Joined, Marked,
           OnlyMembers, Elements, Forest.Members, Ids;
      ghost var g, s, x := Groups(), w0.Active(), Callees[n][i].value;
      ActiveListed(Callees, Calls, k.SettledIn(g), stack, pending, w0, n, i);
      assert Distinct(Nodes[c]) && Elements(Nodes[c]) == g.Members(c) by { PlacedAt(k, Nodes, NextSCC, g, c); }
      ActiveLoose(k, Callees, g, NextSCC, DFSNumber, LowLink, stack + [Frame(n, i)], pending, w0);
      MembersMapped(g, c);
      Flush(c, n, stack, pending, s);
      JoinedKeys(old(SCCMap), s, c);
      ghost var g' := Groups();
      InnerFlush(k, Callees, g, g', NextSCC, old(DFSNumber), old(LowLink), stack, pending, w0, n, i, x, s);
      w := FreshWalk(Callees, k.SettledIn(g'));
      PlacedJoin(k, old(Nodes), Nodes, NextSCC, g, g', s);
      OnlyMarked(k, old(DFSNumber), s);
      OnlyMarked(k, old(LowLink), s);
    }

    /** The component c is no longer a parent of a component that a loose member calls. */
    method Detach(c: SccId, n: Vertex, ghost i: nat, ghost stack: seq<Frame>, ghost pending: seq<Vertex>, child: Vertex,
                  ghost k: Case, ghost w0: Walk) returns (ghost w: Walk)
      requires Walks(k, stack + [Frame(n, i)], pending, w0) && n in Callees && i < |Callees[n]|
      requires Callees[n][i] == Some(child) && child in SCCMap && SCCMap[child] != c && c == k.c
      modifies this`ParentSCCs
      ensures Walks(k, stack + [Frame(n, i + 1)], pending, w) && Met(w) == old(Met(w0)) && w.next == w0.next
    {
      hide Splitting, SplitStart, Exploring, Settled, ScanErased, Placed, Scan, Below, Ids;
      ghost var g := Groups();
      InnerChild(k, Callees, g, NextSCC, DFSNumber, LowLink, stack, pending, w0, n, i, child);
      var childSCC := SCCMap[child];
      ParentSCCs := ParentSCCs[childSCC := ParentSCCs[childSCC] - {c}];
      InnerErase(k, Callees, g, Groups(), NextSCC, DFSNumber, LowLink, stack, pending, w0, n, i, child, childSCC);
      PlacedSame(k, Nodes, NextSCC, g, Groups());
      w := Scan(w0, n, child);
    }

    /** A callee that has no number yet: number it and go on with it. */
    method Deepen(n: Vertex, ghost i: nat, ghost stack: seq<Frame>, ghost pending: seq<Vertex>, child: Vertex,
                  number: int,
                  ghost k: Case, ghost w0: Walk) returns (ghost w: Walk)
      requires Walks(k, stack + [Frame(n, i)], pending, w0) && n in Callees && i < |Callees[n]|
      requires Callees[n][i] == Some(child) && child !in SCCMap && child in DFSNumber && DFSNumber[child] == 0
               && number == w0.next
      modifies this`DFSNumber, this`LowLink
      ensures Walks(k, stack + [Frame(n, i)] + [Frame(child, 0)], pending, w) && w.next == number + 1
      ensures Met(w) == old(Met(w0)) + {child} && child !in old(Met(w0)) && child in Callees
      ensures OnlyMembers(k, old(DFSNumber), DFSNumber) && OnlyMembers(k, old(LowLink), LowLink)
    {
      hide Splitting, SplitStart, Exploring, Settled, ScanErased, Placed, Below, OnlyMembers, Ids;
      ghost var g := Groups();
      InnerChild(k, Callees, g, NextSCC, DFSNumber, LowLink, stack, pending, w0, n, i, child);
      InnerVisit(k, Callees, g, NextSCC, DFSNumber, LowLink, stack, pending, w0, n, i, child);
      OnlyMember(k, DFSNumber, child, number);
      OnlyMember(k, LowLink, child, number);
      w := Descend(w0, child);
      DFSNumber := DFSNumber[child := number];
      LowLink := LowLink[child := number];
    }

    /** A callee that is being explored: take its low link if that is lower. */
    method Relax(n: Vertex, ghost i: nat, ghost stack: seq<Frame>, ghost pending: seq<Vertex>, child: Vertex,
                 ghost k: Case, ghost w0: Walk) returns (ghost w: Walk)
      requires Walks(k, stack + [Frame(n, i)], pending, w0) && n in Callees && i < |Callees[n]|
      requires Callees[n][i] == Some(child) && child !in SCCMap && child in DFSNumber && DFSNumber[child] != 0
      modifies this`LowLink
      ensures Walks(k, stack + [Frame(n, i + 1)], pending, w) && Met(w) == old(Met(w0)) && w.next == w0.next
      ensures OnlyMembers(k, old(LowLink), LowLink)
    {
      hide Splitting, SplitStart, Exploring, Settled, ScanErased, Placed, Below, OnlyMembers, Scan, Ids;
      ghost var g, low := Groups(), LowLink;
      InnerChild(k, Callees, g, NextSCC, DFSNumber, LowLink, stack, pending, w0, n, i, child);
      SameNumbersOnly(k, LowLink);
      if LowLink[child] >= 0 && LowLink[child] < LowLink[n] {
        OnlyMember(k, LowLink, n, LowLink[child]);
        LowLink := LowLink[n := LowLink[child]];
      }
      InnerLower(k, Callees, g, NextSCC, DFSNumber, low, LowLink, stack, pending, w0, n, i, child);
      w := Scan(w0, n, child);
    }

    /** Scan callees from slot i0 of n0 until the node in hand has none left, or
        until a callee is found that has rejoined c. */
    method InnerExplore(c: SccId, n0: Vertex, i0: nat, stack0: seq<Frame>, pending: seq<Vertex>, number0: int,
                        ghost k: Case, ghost w0: Walk)
      returns (rejoined: bool, n: Vertex, stack: seq<Frame>, number: int, ghost w: Walk)
      requires Walks(k, stack0 + [Frame(n0, i0)], pending, w0) && k.c == c && number0 == w0.next
      modifies this`DFSNumber, this`LowLink, this`Nodes, this`SCCMap, this`ParentSCCs
      ensures rejoined ==> Walks(k, [], [], w)
      ensures !rejoined ==> n in Callees && Walks(k, stack + [Frame(n, |Callees[n]|)], pending, w) && number == w.next
      ensures old(Met(w0)) <= Met(w)
      ensures !rejoined ==>
                Callees.Keys - Met(w) < Callees.Keys - old(Met(w0)) || (Met(w) == old(Met(w0)) && stack == stack0)
      ensures OnlyMembers(k, old(DFSNumber), DFSNumber) && OnlyMembers(k, old(LowLink), LowLink)
    {
      hide Splitting, SplitStart, Exploring, Settled, ScanErased, Placed, Below, OnlyMembers, Scan, Inner, Ids;
      n, stack, number, w := n0, stack0, number0, w0;
      var i: nat := i0;
      SameNumbersOnly(k, DFSNumber);
      SameNumbersOnly(k, LowLink);
      InnerPlace(k, Callees, Groups(), NextSCC, DFSNumber, LowLink, stack, pending, w, n, i);
      while i < |Callees[n]|
        invariant n in Callees && i <= |Callees[n]| && number == w.next
        invariant Walks(k, stack + [Frame(n, i)], pending, w)
        invariant old(Met(w0)) <= Met(w)
        invariant Callees.Keys - Met(w) < Callees.Keys - old(Met(w0)) || (Met(w) == old(Met(w0)) && stack == stack0)
        invariant OnlyMembers(k, old(DFSNumber), DFSNumber) && OnlyMembers(k, old(LowLink), LowLink)
        decreases Callees.Keys - Met(w), |Callees[n]| - i
      {
        ghost var dfs, low := DFSNumber, LowLink;
        var slot := Callees[n][i];
        if slot.None? {
          InnerSkip(k, Callees, Groups(), NextSCC, DFSNumber, LowLink, stack, pending, w, n, i);
          i := i + 1;
        } else {
          var child := slot.value;
          InnerChild(k, Callees, Groups(), NextSCC, DFSNumber, LowLink, stack, pending, w, n, i, child);
          if child in SCCMap {
            if SCCMap[child] == c {
              w := Rejoin(n, i, stack, pending, c, k, w);
              OnlyMembersThen(k, old(DFSNumber), dfs, DFSNumber);
              OnlyMembersThen(k, old(LowLink), low, LowLink);
              return true, n, stack, number, w;
            }
            w := Detach(c, n, i, stack, pending, child, k, w);
            i := i + 1;
          } else if DFSNumber[child] == 0 {
            w := Deepen(n, i, stack, pending, child, number, k, w);
            OnlyMembersThen(k, old(DFSNumber), dfs, DFSNumber);
            OnlyMembersThen(k, old(LowLink), low, LowLink);
            stack := stack + [Frame(n, i)];
            n, i, number := child, 0, number + 1;
          } else {
            w := Relax(n, i, stack, pending, child, k, w);
            OnlyMembersThen(k, old(LowLink), low, LowLink);
            i := i + 1;
          }
        }
      }
      rejoined := false;
    }

    /** A root inside c becomes the root of a new component. */
    method SplitOff(n: Vertex, ghost stack: seq<Frame>, pending0: seq<Vertex>, ghost k: Case, ghost w0: Walk)
      returns (newSCC: SccId, pending: seq<Vertex>, ghost w: Walk)
      requires n in Callees && Walks(k, stack + [Frame(n, |Callees[n]|)], pending0, w0) && w0.L(n) == w0.D(n)
      modifies this`DFSNumber, this`LowLink, this`Nodes, this`SCCMap, this`ParentSCCs, this`LeafSCCs, this`NextSCC
      ensures Walks(k, stack, pending, w) && w.next == w0.next && Met(w) == old(Met(w0))
      ensures newSCC == old(NextSCC) && NextSCC == newSCC + 1
      ensures OnlyMembers(k, old(DFSNumber), DFSNumber) && OnlyMembers(k, old(LowLink), LowLink)
    {
      hide Splitting, SplitStart, Exploring, Settled, ScanErased, Placed, Below, OnlyMembers, CanForm, Lists, CutAt,
           Ids;
      hide KidsOf, Marked, Component, Taken, Distinct, Elements, Joined;
      ghost var g := Groups();
      ghost var s := Component(w0, n);
      ghost var cut := InnerReady(k, Callees, g, NextSCC, DFSNumber, LowLink, stack, pending0, w0, n);
      ActiveLoose(k, Callees, g, NextSCC, DFSNumber, LowLink, stack + [Frame(n, |Callees[n]|)], pending0, w0);
      CaseFacts(k, g, NextSCC);
      PlacedKeys(k, Nodes, NextSCC, g);
      ghost var kids;
      newSCC, pending, kids := FormSCC(n, pending0, cut);
      IdsAppend(old(LeafSCCs), newSCC);
      w := Form(w0, n, Marked(w0.dfs, s), Marked(w0.low, s));
      ghost var g' := Groups();
      assert Formed(k.e, g, g', newSCC, s, Nodes[newSCC], kids);
      InnerForm(k, Callees, g, g', newSCC, old(DFSNumber), old(LowLink), stack, pending0, w0, w, n, cut, s,
        Nodes[newSCC], kids);
      PlacedForm(k, old(Nodes), Nodes, newSCC, g, g', s);
      JoinedKeys(g.of, s, newSCC);
      OnlyMarked(k, old(DFSNumber), s);
      OnlyMarked(k, old(LowLink), s);
    }

    /** The node in hand has no callee left: it is the root of a new component, or waits for its root. */
    method FinishNode(n: Vertex, ghost stack: seq<Frame>, pending0: seq<Vertex>, ghost k: Case, ghost w0: Walk)
      returns (isRoot: bool, more: seq<SccId>, pending: seq<Vertex>, ghost w: Walk)
      requires n in Callees && Walks(k, stack + [Frame(n, |Callees[n]|)], pending0, w0)
      modifies this`DFSNumber, this`LowLink, this`Nodes, this`SCCMap, this`ParentSCCs, this`LeafSCCs, this`NextSCC
      ensures Walks(k, stack, pending, w) && w.next == w0.next && Met(w) == old(Met(w0)) && (!isRoot ==> stack != [])
      ensures old(NextSCC) <= NextSCC && more == InOrder(old(NextSCC), NextSCC)
      ensures OnlyMembers(k, old(DFSNumber), DFSNumber) && OnlyMembers(k, old(LowLink), LowLink)
    {
      hide Splitting, SplitStart, Exploring, Settled, ScanErased, Placed, Below, OnlyMembers, Inner, Ids;
      InnerPlace(k, Callees, Groups(), NextSCC, DFSNumber, LowLink, stack, pending0, w0, n, |Callees[n]|);
      isRoot := LowLink[n] == DFSNumber[n];
      if isRoot {
        var newSCC;
        newSCC, pending, w := SplitOff(n, stack, pending0, k, w0);
        more := [newSCC];
        InOrderNext(newSCC, newSCC);
      } else {
        InnerPend(k, Callees, Groups(), NextSCC, DFSNumber, LowLink, stack, pending0, w0, n);
        SameNumbersOnly(k, DFSNumber);
        SameNumbersOnly(k, LowLink);
        pending := pending0 + [n];
        w := Pend(w0, n);
        more := [];
      }
    }

    /** SCC::internalDFS: the inner walk from one loose member. */
    method InternalDFS(c: SccId, n0: Vertex, ghost k: Case, ghost w0: Walk)
      returns (results: seq<SccId>, ghost w: Walk)
      requires Walks(k, [], [], w0) && k.c == c && n0 in DFSNumber && DFSNumber[n0] == 0 && k.Loose(Groups(), n0)
      modifies this`DFSNumber, this`LowLink, this`Nodes, this`SCCMap, this`ParentSCCs, this`LeafSCCs, this`NextSCC
      ensures Walks(k, [], [], w) && n0 in SCCMap && old(SCCMap).Keys <= SCCMap.Keys
      ensures old(NextSCC) <= NextSCC && results == InOrder(old(NextSCC), NextSCC)
      ensures OnlyMembers(k, old(DFSNumber), DFSNumber) && OnlyMembers(k, old(LowLink), LowLink)
    {
      hide Splitting, SplitStart, Exploring, Settled, ScanErased, Placed, Below, OnlyMembers, Inner, Ids, InOrder;
      w := BeginAt(n0, k, w0);
      var n, i, stack, pending, number := n0, 0, [], [], 2;
      results := [];
      InOrderNone(NextSCC);
      while true
        invariant Walks(k, stack + [Frame(n, i)], pending, w) && number == w.next
        invariant old(SCCMap).Keys + {n0} <= Met(w)
        invariant old(NextSCC) <= NextSCC && results == InOrder(old(NextSCC), NextSCC)
        invariant OnlyMembers(k, old(DFSNumber), DFSNumber) && OnlyMembers(k, old(LowLink), LowLink)
        decreases Callees.Keys - Met(w), |stack|
      {
        ghost var dfs, low := DFSNumber, LowLink;
        var rejoined;
        rejoined, n, stack, number, w := InnerExplore(c, n, i, stack, pending, number, k, w);
        OnlyMembersThen(k, old(DFSNumber), dfs, DFSNumber);
        OnlyMembersThen(k, old(LowLink), low, LowLink);
        if rejoined {
          InnerEmpty(k, Callees, Groups(), NextSCC, DFSNumber, LowLink, [], w);
          return;
        }
        dfs, low := DFSNumber, LowLink;
        ghost var mid := NextSCC;
        var isRoot, more;
        isRoot, more, pending, w := FinishNode(n, stack, pending, k, w);
        OnlyMembersThen(k, old(DFSNumber), dfs, DFSNumber);
        OnlyMembersThen(k, old(LowLink), low, LowLink);
        InOrderThen(old(NextSCC), mid, NextSCC);
        results := results + more;
        if isRoot && |stack| == 0 {
          InnerEmpty(k, Callees, Groups(), NextSCC, DFSNumber, LowLink, pending, w);
          return;
        }
        PopFrame(stack);
        n, i := stack[|stack| - 1].node, stack[|stack| - 1].it;
        stack := stack[..|stack| - 1];
      }
    }

    /** Number the loose member that the inner walk starts from. */
    method BeginAt(n0: Vertex, ghost k: Case, ghost w0: Walk) returns (ghost w: Walk)
      requires Walks(k, [], [], w0) && n0 in DFSNumber && DFSNumber[n0] == 0 && k.Loose(Groups(), n0)
      modifies this`DFSNumber, this`LowLink
      ensures Walks(k, [] + [Frame(n0, 0)], [], w) && w.next == 2 && SCCMap.Keys + {n0} <= Met(w)
      ensures OnlyMembers(k, old(DFSNumber), DFSNumber) && OnlyMembers(k, old(LowLink), LowLink)
    {
      hide Splitting, SplitStart, Exploring, Settled, ScanErased, Placed, Below, OnlyMembers, Inner, Ids;
      InnerEmpty(k, Callees, Groups(), NextSCC, DFSNumber, LowLink, [], w0);
      InnerBegin(k, Callees, Groups(), NextSCC, DFSNumber, LowLink, w0, n0);
      w := Descend(w0.(next := 1), n0);
      OnlyMember(k, DFSNumber, n0, 1);
      OnlyMember(k, LowLink, n0, 1);
      DFSNumber, LowLink := DFSNumber[n0 := 1], LowLink[n0 := 1];
    }

    /** The members of c are in no component any more. */
    method Dissolve(c: SccId) returns (worklist: seq<Vertex>)
      requires c in Nodes
      modifies this`DFSNumber, this`LowLink, this`Nodes, this`SCCMap
      ensures worklist == old(Nodes)[c] && Nodes == old(Nodes)[c := []]
      ensures DFSNumber == Zeroed(old(DFSNumber), Elements(worklist))
              && LowLink == Zeroed(old(LowLink), Elements(worklist))
      ensures SCCMap == old(SCCMap) - Elements(worklist)
    {
      worklist := Nodes[c];
      Nodes := Nodes[c := []];
      for j := 0 to |worklist|
        invariant Nodes == old(Nodes)[c := []]
        invariant DFSNumber == Zeroed(old(DFSNumber), Elements(worklist[..j]))
        invariant LowLink == Zeroed(old(LowLink), Elements(worklist[..j]))
        invariant SCCMap == old(SCCMap) - Elements(worklist[..j])
      {
        var n := worklist[j];
        assert Elements(worklist[..j + 1]) == Elements(worklist[..j]) + {n};
        ZeroedAdd(old(DFSNumber), Elements(worklist[..j]), n);
        ZeroedAdd(old(LowLink), Elements(worklist[..j]), n);
        DFSNumber := DFSNumber[n := 0];
        LowLink := LowLink[n := 0];
        SCCMap := SCCMap - {n};
      }
      assert worklist[..|worklist|] == worklist;
    }

    /** Walk from every member that has no component yet. */
    method Regroup(c: SccId, members: seq<Vertex>, ghost k: Case, ghost w0: Walk)
      returns (results: seq<SccId>, ghost w: Walk)
      requires Walks(k, [], [], w0) && k.c == c && k.base == NextSCC && Elements(members) == k.f0.Members(c)
      requires k.f0.of.Keys <= Callees.Keys
      modifies this`DFSNumber, this`LowLink, this`Nodes, this`SCCMap, this`ParentSCCs, this`LeafSCCs, this`NextSCC
      ensures Walks(k, [], [], w) && SCCMap.Keys == k.f0.of.Keys
      ensures k.base <= NextSCC && results == InOrder(k.base, NextSCC)
      ensures OnlyMembers(k, old(DFSNumber), DFSNumber) && OnlyMembers(k, old(LowLink), LowLink)
    {
      hide Splitting, SplitStart, Exploring, Settled, ScanErased, Placed, Below, OnlyMembers, Elements, Ids;
      var worklist := members;
      results, w := [], w0;
      SameNumbersOnly(k, DFSNumber);
      SameNumbersOnly(k, LowLink);
      assert InOrder(k.base, k.base) == [];
      while |worklist| > 0
        invariant Walks(k, [], [], w) && |worklist| <= |members| && worklist == members[..|worklist|]
        invariant forall j :: |worklist| <= j < |members| ==> members[j] in SCCMap
        invariant k.base <= NextSCC && results == InOrder(k.base, NextSCC)
        invariant OnlyMembers(k, old(DFSNumber), DFSNumber) && OnlyMembers(k, old(LowLink), LowLink)
      {
        ghost var dfs, low, mid := DFSNumber, LowLink, NextSCC;
        var n := worklist[|worklist| - 1];
        worklist := worklist[..|worklist| - 1];
        MemberLoose(k, Callees, Groups(), NextSCC, DFSNumber, LowLink, w, members, n);
        if DFSNumber[n] == 0 {
          var more;
          more, w := InternalDFS(c, n, k, w);
          OnlyMembersThen(k, old(DFSNumber), dfs, DFSNumber);
          OnlyMembersThen(k, old(LowLink), low, LowLink);
          InOrderThen(k.base, mid, NextSCC);
          results := results + more;
        }
      }
      NothingLoose(k, Groups(), NextSCC, members);
    }

    /** Connect what is left of c to the components it calls. */
    method Reconnect(c: SccId, split: bool, ghost k: Case, ghost w: Walk) returns (ghost kids: set<SccId>)
      requires Walks(k, [], [], w) && k.c == c && SCCMap.Keys == k.f0.of.Keys <= Callees.Keys && k.base <= NextSCC
      requires split <==> k.base < NextSCC
      modifies this`ParentSCCs, this`LeafSCCs, this`Rank
      ensures SplitDone(k.e0, k.e, k.f0, k.c, k.u, k.v, k.base, NextSCC, old(Groups()), Groups(), kids)
    {
      hide Splitting, SplitStart, Exploring, Settled, ScanErased, Placed, Below, KidsOf, SplitDone, Forest.Members,
           Elements, Lists, Ids;
      ghost var g := Groups();
      ExploringKeys(Callees, Calls, k.SettledIn(g), [], [], w);
      ReadyToConnect(k, Callees, Nodes, NextSCC, g);
      var isLeaf;
      isLeaf, kids := ConnectToChildren(c);
      if !isLeaf && split {
        IdsWithout(LeafSCCs, c);
        LeafSCCs := Without(LeafSCCs, c);
      }
      Rank := FinalRank(k.f0, c, k.base, NextSCC);
      Connected(k, Nodes, NextSCC, g, Groups(), kids);
    }

    /** The members of c leave it, and v comes back. */
    method LeaveOnly(c: SccId, v: Vertex) returns (worklist: seq<Vertex>)
      requires c in Nodes
      modifies this`DFSNumber, this`LowLink, this`Nodes, this`SCCMap
      ensures worklist == old(Nodes)[c] && Nodes == old(Nodes)[c := [v]]
      ensures DFSNumber == Zeroed(old(DFSNumber), Elements(worklist))[v := -1]
      ensures LowLink == Zeroed(old(LowLink), Elements(worklist))[v := -1]
      ensures SCCMap == old(SCCMap) - Elements(worklist) + map[v := c]
    {
      hide Zeroed, Elements;
      worklist := Dissolve(c);
      Insert(c, v);
      assert [] + [v] == [v];
      UpdateIsUnion(old(SCCMap) - Elements(worklist), v, c);
      UpdateTwice(old(Nodes), c, [], [v]);
    }

    /** Dissolve c and put the callee back into it. */
    method Scatter(c: SccId, v: Vertex, ghost k: Case) returns (worklist: seq<Vertex>, ghost w: Walk)
      requires k.Start() && k.c == c && k.v == v && k.e == Calls && k.f0 == Groups() && k.base == NextSCC
      requires Exploring(Callees, Calls, SCCMap.Keys, DFSStack, PendingSCCStack, W) && Synced()
      requires Tabled(Groups(), Nodes, NextSCC, NextRank) && c in Nodes && Elements(Nodes[c]) == k.f0.Members(c)
      modifies this`DFSNumber, this`LowLink, this`Nodes, this`SCCMap
      ensures Walks(k, [], [], w) && worklist == old(Nodes)[c]
      ensures OnlyMembers(k, W.dfs, DFSNumber) && OnlyMembers(k, W.low, LowLink)
    {
      hide Exploring, Tabled, Elements, Splitting, SplitStart, Placed, NumbersAgree, ScanErased, OnlyMembers, Zeroed,
           Forest.Members, Inner;
      ExploringKeys(Callees, Calls, SCCMap.Keys, DFSStack, PendingSCCStack, W);
      FormedNumbers(Callees, Calls, SCCMap.Keys, DFSStack, PendingSCCStack, W);
      worklist := LeaveOnly(c, v);
      w := Apart(k, Callees, DFSStack, PendingSCCStack, W, old(Nodes), Nodes, NextRank, Groups(), DFSNumber, LowLink,
        Elements(worklist));
    }

    /** Take the members of c apart, starting from the callee alone. */
    method TakeApart(c: SccId, v: Vertex, ghost k: Case) returns (results: seq<SccId>, ghost w: Walk)
      requires k.Start() && k.c == c && k.v == v && k.e == Calls && k.f0 == Groups() && k.base == NextSCC
      requires Exploring(Callees, Calls, SCCMap.Keys, DFSStack, PendingSCCStack, W) && Synced()
      requires Tabled(Groups(), Nodes, NextSCC, NextRank) && c in Nodes && Elements(Nodes[c]) == k.f0.Members(c)
      modifies this`DFSNumber, this`LowLink, this`Nodes, this`SCCMap, this`ParentSCCs, this`LeafSCCs, this`NextSCC
      ensures Walks(k, [], [], w) && SCCMap.Keys == old(SCCMap).Keys && Synced() && Placed(k, Nodes, NextSCC, Groups())
      ensures k.base <= NextSCC && results == InOrder(k.base, NextSCC)
    {
      hide Exploring, Tabled, Elements, Placed, OnlyMembers, Forest.Members, Ids, InOrder, Case.Start;
      hide Splitting, SplitStart, NumbersAgree, ScanErased;
      ExploringKeys(Callees, Calls, SCCMap.Keys, DFSStack, PendingSCCStack, W);
      var worklist: seq<Vertex>;
      worklist, w := Scatter(c, v, k);
      ghost var dfs, low := DFSNumber, LowLink;
      results, w := Regroup(c, worklist, k, w);
      OnlyMembersThen(k, W.dfs, dfs, DFSNumber);
      OnlyMembersThen(k, W.low, low, LowLink);
      Undisturbed(k, Callees, DFSStack, PendingSCCStack, W, Groups(), NextSCC, DFSNumber, LowLink, w);
    }

    /** SCC::removeIntraSCCEdge: c keeps exactly its members that still reach the callee; the others
        are put in new components, returned in post-order. */
    method RemoveIntraSCCEdge(c: SccId, u: Vertex, v: Vertex) returns (results: seq<SccId>)
      requires Valid() && u in SCCMap && v in SCCMap && SCCMap[u] == c == SCCMap[v] && c in Nodes
      requires u in CalleeIndexMap && v in CalleeIndexMap[u]
      modifies this
      ensures Valid() && Drops(old(Calls), Calls, u, v)
      ensures SlotCleared(old(Callees), old(CalleeIndexMap), Callees, CalleeIndexMap, u, v)
      ensures Edge(Calls, u, v) <==> Some(v) in Callees[u]
      ensures u == v ==>
                results == [] && Nodes == old(Nodes) && ParentSCCs == old(ParentSCCs) && LeafSCCs == old(LeafSCCs)
      ensures u == v && old(ParentsExact()) ==> ParentsExact()
      ensures u != v ==>
                IsSplit(Calls, old(Nodes)[c], c, v, Nodes, results) && Nodes.Keys == old(Nodes).Keys + Ids(results)
      ensures forall d :: d in old(Nodes) && d != c ==> d in Nodes && Elements(Nodes[d]) == Elements(old(Nodes)[d])
      ensures SCCMap.Keys == old(SCCMap).Keys
      // New components are not given the outside callers of their members as parents.
      ensures u != v && old(ParentsExact()) ==> (ParentsExact() <==> CallersKept(Calls, old(Groups()), c, v))
      ensures old(LeavesExact()) ==> LeavesExact()
    {
      hide Exploring, Tabled, Forest.Valid, Forest.ParentsExact, Forest.LeavesExact, Lists, IndexFits, Drops, IsSplit,
           CallersKept, EntriesOk, Ids;
      hide Elements, Forest.Members;
      ghost var f, e := Groups(), Calls;
      Unlink(u, v);
      if u == v {
        LoopDrop(e, Calls, f, u);
        return [];
      }
      InOld(f, u, v, c);
      results := SplitUp(c, v, e, u);
    }

    /** Remove an edge of a formed node; a suspended walk is not disturbed. */
    method Unlink(u: Vertex, v: Vertex)
      requires Valid() && u in SCCMap && u in CalleeIndexMap && v in CalleeIndexMap[u]
      modifies this`Callees, this`CalleeIndexMap, this`Calls
      ensures Exploring(Callees, Calls, SCCMap.Keys, DFSStack, PendingSCCStack, W) && IndexFits(Callees, CalleeIndexMap)
      ensures Drops(old(Calls), Calls, u, v) && Edge(old(Calls), u, v) && Callees.Keys == old(Callees).Keys
      ensures SCCMap.Keys <= Callees.Keys && Lists(Callees, Calls)
      ensures SlotCleared(old(Callees), old(CalleeIndexMap), Callees, CalleeIndexMap, u, v)
      ensures Edge(Calls, u, v) <==> Some(v) in Callees[u]
    {
      hide Exploring, Tabled, Forest.Valid, Lists, IndexFits, Drops, EntriesOk, Ids;
      GroupsClosed(Calls, Groups());
      ExploringKeys(Callees, Calls, SCCMap.Keys, DFSStack, PendingSCCStack, W);
      RemoveEdgeInternal(u, v);
      DropsOutside(old(Calls), Calls, u, v, SCCMap.Keys);
      ExploringFrame(old(Callees), Callees, old(Calls), Calls, SCCMap.Keys, DFSStack, PendingSCCStack, W);
    }

    /** After an edge inside c is gone: take c apart, then connect what is left of it to what it calls. */
    method SplitUp(c: SccId, v: Vertex, ghost e0: Edges, ghost u: Vertex) returns (results: seq<SccId>)
      requires u != v && Groups().Has(u, c) && Groups().Has(v, c) && SCCMap.Keys <= Callees.Keys
      requires Tabled(Groups(), Nodes, NextSCC, NextRank) && Groups().Valid(e0) && Drops(e0, Calls, u, v)
               && Edge(e0, u, v)
      requires Exploring(Callees, Calls, SCCMap.Keys, DFSStack, PendingSCCStack, W)
               && IndexFits(Callees, CalleeIndexMap)
      requires Synced() && EntriesFit()
      modifies this`DFSNumber, this`LowLink, this`Nodes, this`SCCMap, this`ParentSCCs, this`LeafSCCs, this`NextSCC,
               this`Rank, this`NextRank
      ensures c in old(Nodes) && IsSplit(Calls, old(Nodes)[c], c, v, Nodes, results)
      ensures Nodes.Keys == old(Nodes).Keys + Ids(results) && SCCMap.Keys == old(SCCMap).Keys
      ensures forall d :: d in old(Nodes) && d != c ==> d in Nodes && Elements(Nodes[d]) == Elements(old(Nodes)[d])
      ensures old(Groups()).ParentsExact(e0) ==> (ParentsExact() <==> CallersKept(Calls, old(Groups()), c, v))
      ensures old(Groups()).LeavesExact(e0) ==> LeavesExact()
      ensures Valid()
    {
      hide Exploring, Tabled, Forest.Valid, Forest.ParentsExact, Forest.LeavesExact, IndexFits, Drops, IsSplit,
           CallersKept, EntriesOk, Ids;
      hide Elements, Placed, SplitDone, Forest.Members, InOrder, Case.Start;
      ghost var k := CaseStart(e0, Calls, Groups(), Nodes, NextSCC, NextRank, c, u, v);
      ghost var g, kids;
      results, g, kids := Rebuild(c, v, k);
      NextRank := NextRank + |results|;
      SplitEnds(k, old(Nodes)[c], old(Nodes), Nodes, NextSCC, old(NextRank), g, Groups(), kids);
    }

    /** The components after the split, g, and once what is left of c is connected to what it calls. */
    method Rebuild(c: SccId, v: Vertex, ghost k: Case)
      returns (results: seq<SccId>, ghost g: Forest, ghost kids: set<SccId>)
      requires k.Start() && k.c == c && k.v == v && k.e == Calls && k.f0 == Groups() && k.base == NextSCC
               && SCCMap.Keys <= Callees.Keys
      requires Exploring(Callees, Calls, SCCMap.Keys, DFSStack, PendingSCCStack, W) && Synced()
      requires Tabled(Groups(), Nodes, NextSCC, NextRank) && c in Nodes && Elements(Nodes[c]) == k.f0.Members(c)
      modifies this`DFSNumber, this`LowLink, this`Nodes, this`SCCMap, this`ParentSCCs, this`LeafSCCs, this`NextSCC,
        this`Rank
      ensures SCCMap.Keys == old(SCCMap).Keys && Synced() && Placed(k, Nodes, NextSCC, g)
      ensures k.base <= NextSCC && results == InOrder(k.base, NextSCC)
      ensures SplitDone(k.e0, k.e, k.f0, k.c, k.u, k.v, k.base, NextSCC, g, Groups(), kids)
    {
      hide Exploring, Tabled, Elements, Placed, SplitDone, Forest.Members, InOrder, Walks, Case.Start, Ids;
      ghost var w;
      results, w := TakeApart(c, v, k);
      g := Groups();
      kids := Reconnect(c, |results| > 0, k, w);
    }
  }
}
