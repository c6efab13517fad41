// DominanceFrontier::calculate: the frontiers of all blocks, by one walk over the dominator tree with
// an explicit worklist.
module DominanceFrontier {
  import opened Digraph
  import opened ControlFlow
  import opened Sets

  // ---------------------------------------------------------------- what a frontier is

  /** The blocks w that b does not strictly dominate, although it dominates a predecessor of w. */
  ghost predicate InFrontier(g: Graph, b: Vertex, w: Vertex) {
    && !StrictlyDominates(g, b, w)
    && exists p :: Live(g, p) && Dominates(g, b, p) && Edge(EdgesOf(g), p, w)
  }

  /** Successors that b does not immediately dominate. */
  ghost predicate InLocal(g: Graph, t: DomTree, b: Vertex, w: Vertex) {
    Edge(EdgesOf(g), b, w) && !(w in t.idom && t.idom[w] == b)
  }

  /** What a child of b hands up. */
  ghost predicate HandedUp(g: Graph, t: DomTree, c: Vertex, b: Vertex, w: Vertex) {
    InFrontier(g, c, w) && !StrictlyDominates(g, b, w)
  }

  lemma LiveEdge(g: Graph, u: Vertex, v: Vertex)
    requires Live(g, u) && Edge(EdgesOf(g), u, v)
    ensures Live(g, v)
  {
    ReachEdge(EdgesOf(g), u, v);
    ReachTrans(EdgesOf(g), g.entry, u, v);
  }

  /** Among the successors of b, those it strictly dominates are those it immediately dominates. */
  lemma SuccessorDominated(g: Graph, t: DomTree, b: Vertex, w: Vertex)
    requires WellFormed(g) && IsDomTree(g, t) && Live(g, b) && Edge(EdgesOf(g), b, w)
    ensures StrictlyDominates(g, b, w) <==> w in t.idom && t.idom[w] == b
  {
    LiveEdge(g, b, w);
    if StrictlyDominates(g, b, w) {
      EntryDominated(g, b, w);
      var d := t.idom[w];
      assert StrictlyDominates(g, b, w) ==> Dominates(g, b, d);
      DominatesPred(g, d, b, w);
      DominatesAntisym(g, d, b);
    }
  }

  lemma LocalInFrontier(g: Graph, t: DomTree, b: Vertex, w: Vertex)
    requires WellFormed(g) && IsDomTree(g, t) && Live(g, b) && InLocal(g, t, b, w)
    ensures InFrontier(g, b, w)
  {
    SuccessorDominated(g, t, b, w);
    DominatesSelf(g, b);
  }

  lemma HandedUpInFrontier(g: Graph, t: DomTree, c: Vertex, b: Vertex, w: Vertex)
    requires IsDomTree(g, t) && c in t.idom && t.idom[c] == b && HandedUp(g, t, c, b, w)
    ensures InFrontier(g, b, w)
  {
    hide Dominates;
    var p :| Live(g, p) && Dominates(g, c, p) && Edge(EdgesOf(g), p, w);
    DominatesTrans(g, b, c, p);
  }

  /** A frontier is what b finds at its own successors and what its children hand up. */
  lemma FrontierSplits(g: Graph, t: DomTree, b: Vertex, w: Vertex)
    requires WellFormed(g) && IsDomTree(g, t) && Live(g, b) && InFrontier(g, b, w)
    ensures InLocal(g, t, b, w) || exists c :: c in t.idom && t.idom[c] == b && HandedUp(g, t, c, b, w)
  {
    hide Dominates;
    var p :| Live(g, p) && Dominates(g, b, p) && Edge(EdgesOf(g), p, w);
    if p == b {
      SuccessorDominated(g, t, b, w);
    } else {
      var c := ChildBetween(g, t, b, p);
      if StrictlyDominates(g, c, w) {
        DominatesTrans(g, b, c, w);
        StrictUp(g, b, c, w);
      }
      assert HandedUp(g, t, c, b, w);
    }
  }

  lemma StrictUp(g: Graph, b: Vertex, c: Vertex, w: Vertex)
    requires StrictlyDominates(g, b, c) && StrictlyDominates(g, c, w) && Dominates(g, b, w) && Live(g, c)
    ensures StrictlyDominates(g, b, w)
  {
    if b == w {
      DominatesAntisym(g, w, c);
    }
  }

  // ---------------------------------------------------------------- the walk

  /** What the dominator tree answers. */
  datatype Tree = Tree(dom: DomTree, strict: set<(Vertex, Vertex)>)

  ghost predicate IsTree(g: Graph, t: Tree) {
    && WellFormed(g) && IsDomTree(g, t.dom)
    && forall a, b :: Live(g, b) ==> ((a, b) in t.strict <==> StrictlyDominates(g, a, b))
  }

  datatype Parent = NoParent | ParentIs(block: Vertex)

  /** A block on the worklist, and its parent in the tree. */
  datatype Work = Work(block: Vertex, parent: Parent)

  type Frontiers = map<Vertex, set<Vertex>>

  ghost predicate OnList(work: seq<Work>, b: Vertex) {
    exists i :: 0 <= i < |work| && work[i].block == b
  }

  /** Where in the worklist a block is. */
  ghost predicate IsAt(work: seq<Work>, i: int, b: Vertex) {
    0 <= i < |work| && work[i].block == b
  }

  ghost predicate WorkOk(g: Graph, t: DomTree, root: Vertex, work: seq<Work>, visited: set<Vertex>, i: int)
    requires 0 <= i < |work|
  {
    && Live(g, work[i].block)
    && if i == 0 then work[i] == Work(root, NoParent)
       else
         && work[i].block in t.idom && work[i].parent == ParentIs(t.idom[work[i].block]) && work[i].block != root
         && t.idom[work[i].block] in visited && exists j :: j < i && IsAt(work, j, t.idom[work[i].block])
  }

  ghost predicate ListOk(g: Graph, t: DomTree, root: Vertex, work: seq<Work>, visited: set<Vertex>) {
    && work != []
    && (forall i {:trigger WorkOk(g, t, root, work, visited, i)} ::
         0 <= i < |work| ==> WorkOk(g, t, root, work, visited, i))
    && (forall i, j :: 0 <= i < j < |work| ==> work[i].block != work[j].block)
  }

  /** Once a block has been visited its children are finished or above it on the list; until then they
      are neither. */
  ghost predicate ChildrenOk(t: DomTree, work: seq<Work>, visited: set<Vertex>, done: set<Vertex>) {
    && (forall b, c, i {:trigger IsAt(work, i, b), c in t.children[b]} ::
          b in visited && IsAt(work, i, b) && b in t.children && c in t.children[b] ==>
            c in done || exists j :: i < j && IsAt(work, j, c))
    && (forall b, c {:trigger c in t.children[b]} :: b in done && b in t.children && c in t.children[b] ==> c in done)
    && (forall b, c {:trigger c in t.children[b]} :: b !in visited && b in t.children && c in t.children[b] ==>
          c !in visited && c !in done && !OnList(work, c))
  }

  ghost predicate SetsOk(work: seq<Work>, visited: set<Vertex>, done: set<Vertex>) {
    && (forall b :: b in done ==> b in visited && !OnList(work, b))
    && (forall b :: b in visited ==> b in done || OnList(work, b))
  }

  /** What has been collected for a block that is visited but not finished. */
  ghost predicate Collected(g: Graph, t: DomTree, f: set<Vertex>, b: Vertex, done: set<Vertex>) {
    forall w :: w in f <==> InLocal(g, t, b, w) || exists c ::
        c in done && c in t.idom && t.idom[c] == b && HandedUp(g, t, c, b, w)
  }

  ghost predicate Exact(g: Graph, f: set<Vertex>, b: Vertex) {
    forall w :: w in f <==> InFrontier(g, b, w)
  }

  ghost predicate FrontiersOk(g: Graph, t: DomTree, f: Frontiers, visited: set<Vertex>, done: set<Vertex>) {
    && (forall b :: b in visited ==> b in f)
    && (forall b :: b in done ==> b in f && Live(g, b) && Exact(g, f[b], b))
    && (forall b :: b in visited && b !in done ==> Collected(g, t, f[b], b, done))
  }

  ghost predicate Walking(g: Graph, t: DomTree, root: Vertex, work: seq<Work>, visited: set<Vertex>, done: set<Vertex>,
                          f: Frontiers) {
    && ListOk(g, t, root, work, visited) && ChildrenOk(t, work, visited, done) && SetsOk(work, visited, done)
    && FrontiersOk(g, t, f, visited, done)
  }

  // ---------------------------------------------------------------- visiting a block

  function Pushed(b: Vertex, cs: seq<Vertex>): seq<Work> {
    seq(|cs|, i requires 0 <= i < |cs| => Work(cs[i], ParentIs(b)))
  }

  lemma PushedList(work: seq<Work>, b: Vertex, cs: seq<Vertex>)
    ensures var work' := work + Pushed(b, cs);
            && (forall x :: OnList(work', x) <==> OnList(work, x) || x in cs)
            && (forall i, x :: IsAt(work, i, x) ==> IsAt(work', i, x))
            && (forall c :: c in cs ==> exists j :: |work| <= j && IsAt(work', j, c))
            && (forall i, x :: IsAt(work', i, x) && i < |work| ==> IsAt(work, i, x))
            && (forall i, x :: IsAt(work', i, x) && i >= |work| ==> x in cs)
  {
    var work' := work + Pushed(b, cs);
    forall i | 0 <= i < |cs|
      ensures IsAt(work', |work| + i, cs[i])
    {
      assert Pushed(b, cs)[i] == Work(cs[i], ParentIs(b));
    }
    forall c | c in cs
      ensures exists j :: |work| <= j && IsAt(work', j, c)
    {
      var i :| 0 <= i < |cs| && cs[i] == c;
      assert IsAt(work', |work| + i, cs[i]);
    }
    forall x | OnList(work, x)
      ensures OnList(work', x)
    {
      var i :| 0 <= i < |work| && work[i].block == x;
      assert work'[i].block == x;
    }
    forall x | x in cs
      ensures OnList(work', x)
    {
      var j :| |work| <= j && IsAt(work', j, x);
      assert work'[j].block == x;
    }
    forall x | OnList(work', x)
      ensures OnList(work, x) || x in cs
    {
      var i :| 0 <= i < |work'| && work'[i].block == x;
      if i < |work| {
        assert work[i].block == x;
      } else {
        assert Pushed(b, cs)[i - |work|] == Work(cs[i - |work|], ParentIs(b));
      }
    }
    forall i, x | IsAt(work', i, x) && i >= |work|
      ensures x in cs
    {
      assert Pushed(b, cs)[i - |work|] == Work(cs[i - |work|], ParentIs(b));
    }
  }

  lemma WorkKept(g: Graph, t: DomTree, root: Vertex, work: seq<Work>, work': seq<Work>, visited: set<Vertex>,
                 visited': set<Vertex>, i: int)
    requires 0 <= i < |work| && WorkOk(g, t, root, work, visited, i) && visited <= visited'
    requires i < |work'| && work'[..i + 1] == work[..i + 1]
    ensures WorkOk(g, t, root, work', visited', i)
  {
    hide Live;
    assert work'[i] == work[..i + 1][i];
    if i > 0 {
      var j :| j < i && IsAt(work, j, t.idom[work[i].block]);
      assert work'[j] == work[..i + 1][j];
      assert IsAt(work', j, t.idom[work[i].block]);
    }
  }

  lemma ChildLive(g: Graph, t: DomTree, b: Vertex, c: Vertex)
    requires IsDomTree(g, t) && b in t.children && c in t.children[b]
    ensures c in t.idom && t.idom[c] == b && Live(g, c) && c != g.entry
  {
    hide Live, IsIdom;
  }

  lemma ListAfterVisit(g: Graph, t: DomTree, work: seq<Work>, visited: set<Vertex>, b: Vertex)
    requires IsDomTree(g, t) && ListOk(g, t, g.entry, work, visited) && work[|work| - 1].block == b && b in t.children
    requires forall c :: c in t.children[b] ==> !OnList(work, c)
    ensures ListOk(g, t, g.entry, work + Pushed(b, t.children[b]), visited + {b})
  {
    hide Live, IsIdom, WorkOk;
    var cs := t.children[b];
    var work' := work + Pushed(b, cs);
    var n := |work|;
    assert Distinct(cs);
    forall i | 0 <= i < |work'|
      ensures WorkOk(g, t, g.entry, work', visited + {b}, i)
    {
      if i < n {
        assert work'[..i + 1] == work[..i + 1];
        WorkKept(g, t, g.entry, work, work', visited, visited + {b}, i);
      } else {
        PushedOk(g, t, work, visited, b, i);
      }
    }
    forall i, j | 0 <= i < j < |work'|
      ensures work'[i].block != work'[j].block
    {
      if i < n && j >= n {
        assert work'[j].block == cs[j - n];
        assert OnList(work, work[i].block);
      }
    }
  }

  lemma PushedOk(g: Graph, t: DomTree, work: seq<Work>, visited: set<Vertex>, b: Vertex, i: int)
    requires IsDomTree(g, t) && work != [] && work[|work| - 1].block == b && b in t.children
    requires |work| <= i < |work + Pushed(b, t.children[b])|
    ensures WorkOk(g, t, g.entry, work + Pushed(b, t.children[b]), visited + {b}, i)
  {
    hide Live, IsIdom, IsDomTree;
    var cs := t.children[b];
    var work' := work + Pushed(b, cs);
    var c := cs[i - |work|];
    assert work'[i] == Work(c, ParentIs(b));
    ChildLive(g, t, b, c);
    assert IsAt(work', |work| - 1, b);
  }

  lemma ChildrenAfterVisit(g: Graph, t: DomTree, work: seq<Work>, visited: set<Vertex>, done: set<Vertex>, b: Vertex)
    requires IsDomTree(g, t) && ChildrenOk(t, work, visited, done) && SetsOk(work, visited, done) && b !in visited
             && b in t.children
    requires work != [] && work[|work| - 1].block == b
    requires forall i, j :: 0 <= i < j < |work| ==> work[i].block != work[j].block
    ensures ChildrenOk(t, work + Pushed(b, t.children[b]), visited + {b}, done)
    ensures SetsOk(work + Pushed(b, t.children[b]), visited + {b}, done)
  {
    hide Live, IsIdom;
    var cs := t.children[b];
    var work' := work + Pushed(b, cs);
    var visited' := visited + {b};
    PushedList(work, b, cs);
    assert IsAt(work, |work| - 1, b);
    forall x, c, i {:trigger IsAt(work', i, x), c in t.children[x]} | x in visited' && IsAt(work', i,
      x) && x in t.children && c in t.children[x]
      ensures c in done || exists j :: i < j && IsAt(work', j, c)
    {
      if x == b {
        assert i < |work|;
        var j :| |work| <= j && IsAt(work', j, c);
      } else {
        if i < |work| {
          assert IsAt(work, i, x);
          if c !in done {
            var j :| i < j && IsAt(work, j, c);
            assert IsAt(work', j, c);
          }
        }
      }
    }
    forall x, c {:trigger c in t.children[x]} | x !in visited' && x in t.children && c in t.children[x]
      ensures c !in visited' && c !in done && !OnList(work', c)
    {
      ChildLive(g, t, x, c);
      if c in cs {
        ChildLive(g, t, b, c);
      }
      assert OnList(work, b) by { assert work[|work| - 1].block == b; }
    }
  }

  lemma CollectedLocal(g: Graph, t: DomTree, b: Vertex, f: set<Vertex>, done: set<Vertex>)
    requires forall w :: w in f <==> InLocal(g, t, b, w)
    requires forall c :: c in done && c in t.idom ==> t.idom[c] != b
    ensures Collected(g, t, f, b, done)
  {
    hide InLocal, HandedUp;
  }

  /** The first visit of a block: its own part of the frontier, and its children onto the list. */
  lemma VisitStep(g: Graph, t: DomTree, work: seq<Work>, visited: set<Vertex>, done: set<Vertex>, f: Frontiers,
                  local: set<Vertex>)
    requires IsDomTree(g, t) && Walking(g, t, g.entry, work, visited, done, f)
    requires var b := work[|work| - 1].block;
             b !in visited && b in t.children && forall w :: w in local <==> InLocal(g, t, b, w)
    ensures var b := work[|work| - 1].block;
            && Walking(g, t, g.entry, work + Pushed(b, t.children[b]), visited + {b}, done, f[b := local])
            && forall c :: c in t.children[b] ==> c !in visited
  {
    hide Live, IsIdom, InLocal, Collected, Exact, WorkOk;
    var b := work[|work| - 1].block;
    forall c | c in t.children[b]
      ensures c !in visited && c !in done && !OnList(work, c)
    {
    }
    ListAfterVisit(g, t, work, visited, b);
    ChildrenAfterVisit(g, t, work, visited, done, b);
    CollectedLocal(g, t, b, local, done);
  }

  // ---------------------------------------------------------------- leaving a block

  lemma PoppedList(work: seq<Work>)
    requires work != [] && forall i, j :: 0 <= i < j < |work| ==> work[i].block != work[j].block
    ensures var n := |work| - 1;
            && (forall x :: OnList(work[..n], x) <==> OnList(work, x) && x != work[n].block)
            && (forall i, x :: IsAt(work[..n], i, x) <==> IsAt(work, i, x) && x != work[n].block)
  {
    var n := |work| - 1;
    var rest := work[..n];
    forall x | OnList(work, x) && x != work[n].block
      ensures OnList(rest, x)
    {
      var i :| 0 <= i < |work| && work[i].block == x;
      assert rest[i].block == x;
    }
    forall x | OnList(rest, x)
      ensures OnList(work, x) && x != work[n].block
    {
      var i :| 0 <= i < n && rest[i].block == x;
      assert work[i].block == x;
    }
  }

  lemma ListAfterLeave(g: Graph, t: DomTree, work: seq<Work>, visited: set<Vertex>)
    requires ListOk(g, t, g.entry, work, visited) && |work| > 1
    ensures ListOk(g, t, g.entry, work[..|work| - 1], visited)
  {
    hide Live, WorkOk;
    var rest := work[..|work| - 1];
    forall i | 0 <= i < |rest|
      ensures WorkOk(g, t, g.entry, rest, visited, i)
    {
      assert rest[..i + 1] == work[..i + 1];
      assert WorkOk(g, t, g.entry, work, visited, i);
      WorkKept(g, t, g.entry, work, rest, visited, visited, i);
    }
  }

  /** All children of the block on top are finished once all are visited. */
  lemma ChildrenDone(g: Graph, t: DomTree, work: seq<Work>, visited: set<Vertex>, done: set<Vertex>)
    requires ListOk(g, t, g.entry, work, visited) && ChildrenOk(t, work, visited, done)
    requires var b := work[|work| - 1].block; b in visited && b in t.children
    ensures forall c :: c in t.children[work[|work| - 1].block] ==> c in done
  {
    hide Live, WorkOk;
    var n := |work| - 1;
    assert IsAt(work, n, work[n].block);
  }

  lemma ChildrenAfterLeave(g: Graph, t: DomTree, work: seq<Work>, visited: set<Vertex>, done: set<Vertex>)
    requires ListOk(g, t, g.entry, work, visited) && ChildrenOk(t, work, visited, done) && SetsOk(work, visited, done)
             && |work| > 1
    requires var b := work[|work| - 1].block; b in visited && b in t.children
    ensures ChildrenOk(t, work[..|work| - 1], visited, done + {work[|work| - 1].block})
    ensures SetsOk(work[..|work| - 1], visited, done + {work[|work| - 1].block})
  {
    hide Live, WorkOk;
    var n := |work| - 1;
    var b, rest, done' := work[n].block, work[..n], done + {work[n].block};
    ChildrenDone(g, t, work, visited, done);
    PoppedList(work);
    assert OnList(work, b) by { assert work[n].block == b; }
    forall x, c, i {:trigger IsAt(rest, i, x), c in t.children[x]} | x in visited && IsAt(rest, i,
      x) && x in t.children && c in t.children[x]
      ensures c in done' || exists j :: i < j && IsAt(rest, j, c)
    {
      assert IsAt(work, i, x);
      if c !in done' {
        var j :| i < j && IsAt(work, j, c);
        assert IsAt(rest, j, c);
      }
    }
  }

  /** With all children finished, what has been collected is the frontier. */
  lemma CollectedIsExact(g: Graph, t: DomTree, f: set<Vertex>, b: Vertex, done: set<Vertex>)
    requires WellFormed(g) && IsDomTree(g, t) && Live(g, b) && Collected(g, t, f, b, done)
    requires forall c :: c in t.children[b] ==> c in done
    ensures Exact(g, f, b)
  {
    hide InLocal, HandedUp, InFrontier, IsIdom, Live;
    forall w
      ensures w in f <==> InFrontier(g, b, w)
    {
      if InLocal(g, t, b, w) {
        LocalInFrontier(g, t, b, w);
      }
      if c :| c in done && c in t.idom && t.idom[c] == b && HandedUp(g, t, c, b, w) {
        HandedUpInFrontier(g, t, c, b, w);
      }
      if InFrontier(g, b, w) {
        FrontierSplits(g, t, b, w);
        if !InLocal(g, t, b, w) {
          var c :| c in t.idom && t.idom[c] == b && HandedUp(g, t, c, b, w);
          assert c in t.children[b];
        }
      }
    }
  }

  /** A finished child hands up its frontier. */
  lemma CollectedMore(g: Graph, t: DomTree, f: set<Vertex>, f': set<Vertex>, fc: set<Vertex>, b: Vertex, c: Vertex,
                      done: set<Vertex>)
    requires Collected(g, t, f, b, done) && Exact(g, fc, c) && c in t.idom && t.idom[c] == b
    requires forall w :: w in f' <==> w in f || (w in fc && !StrictlyDominates(g, b, w))
    ensures Collected(g, t, f', b, done + {c})
  {
    hide InLocal, InFrontier;
    forall w
      ensures w in f' <==> InLocal(g, t, b, w) || exists x ::
                x in done + {c} && x in t.idom && t.idom[x] == b && HandedUp(g, t, x, b, w)
    {
      if w in fc && !StrictlyDominates(g, b, w) {
        assert HandedUp(g, t, c, b, w);
      }
    }
  }

  lemma CollectedSame(g: Graph, t: DomTree, f: set<Vertex>, b: Vertex, c: Vertex, done: set<Vertex>)
    requires Collected(g, t, f, b, done) && c in t.idom && t.idom[c] != b
    ensures Collected(g, t, f, b, done + {c})
  {
    hide InLocal, HandedUp;
    forall w
      ensures w in f <==> InLocal(g, t, b, w) || exists x ::
                x in done + {c} && x in t.idom && t.idom[x] == b && HandedUp(g, t, x, b, w)
    {
      if x :| x in done && x in t.idom && t.idom[x] == b && HandedUp(g, t, x, b, w) {
        assert x in done + {c};
      }
    }
  }

  /** The block on top of the list, and its parent. */
  lemma TopFacts(g: Graph, t: DomTree, work: seq<Work>, visited: set<Vertex>, done: set<Vertex>, f: Frontiers)
    requires IsDomTree(g, t) && Walking(g, t, g.entry, work, visited, done, f)
    ensures var x := work[|work| - 1];
            && Live(g, x.block) && x.block in t.children && x.block !in done
            && (x.parent.NoParent? <==> |work| == 1) && (|work| == 1 ==> x.block == g.entry)
            && (|work| > 1 ==> x.block in t.idom && x.parent == ParentIs(t.idom[x.block]) && x.parent.block in visited
                               && x.parent.block !in done && x.parent.block in f && x.parent.block != x.block
                                  && Live(g, x.parent.block))
  {
    hide Live, Exact, Collected, IsIdom;
    var n := |work| - 1;
    assert WorkOk(g, t, g.entry, work, visited, n);
    assert OnList(work, work[n].block) by { assert work[n].block == work[n].block; }
    if n > 0 {
      var p := t.idom[work[n].block];
      var j :| j < n && IsAt(work, j, p);
      assert OnList(work, p);
      assert WorkOk(g, t, g.entry, work, visited, j);
    }
  }

  /** A block is left: its frontier is final, and its parent takes over what it does not dominate. */
  lemma LeaveStep(g: Graph, t: DomTree, work: seq<Work>, visited: set<Vertex>, done: set<Vertex>, f: Frontiers,
                  up: set<Vertex>)
    requires WellFormed(g) && IsDomTree(g, t) && Walking(g, t, g.entry, work, visited, done, f) && |work| > 1
    requires work[|work| - 1].block in visited && work[|work| - 1].block in t.idom
    requires var b := work[|work| - 1].block;
             var p := t.idom[b];
             p in f && p in visited && p !in done && p != b
               && forall w :: w in up <==> w in f[p] || (w in f[b] && !StrictlyDominates(g, p, w))
    ensures var b := work[|work| - 1].block;
            Walking(g, t, g.entry, work[..|work| - 1], visited, done + {b}, f[t.idom[b] := up])
  {
    hide Live, IsIdom, InLocal, Collected, Exact, WorkOk, StrictlyDominates, ChildrenOk, SetsOk, OnList;
    var b := work[|work| - 1].block;
    var p := t.idom[b];
    TopFacts(g, t, work, visited, done, f);
    ListAfterLeave(g, t, work, visited);
    ChildrenAfterLeave(g, t, work, visited, done);
    ChildrenDone(g, t, work, visited, done);
    CollectedIsExact(g, t, f[b], b, done);
    CollectedMore(g, t, f[p], up, f[b], p, b, done);
    forall x | x in visited && x !in done + {b} && x != p
      ensures Collected(g, t, f[x], x, done + {b})
    {
      CollectedSame(g, t, f[x], x, b, done);
    }
  }

  // ---------------------------------------------------------------- the end

  lemma {:induction false} AllDone(g: Graph, t: DomTree, done: set<Vertex>, b: Vertex)
    requires WellFormed(g) && IsDomTree(g, t) && Live(g, b) && g.entry in done
    requires forall x, c {:trigger c in t.children[x]} ::
               x in done && x in t.children && c in t.children[x] ==> c in done
    ensures b in done
    decreases |Dominators(g, b)|
  {
    hide Dominates;
    if b != g.entry {
      var d := t.idom[b];
      assert IsIdom(g, d, b);
      DominatorReaches(g, d, b);
      FewerDominators(g, d, b);
      AllDone(g, t, done, d);
      assert b in t.children[d];
    }
  }

  /** When the root is left, every live block has its exact frontier. */
  lemma Finished(g: Graph, t: DomTree, work: seq<Work>, visited: set<Vertex>, done: set<Vertex>, f: Frontiers)
    requires WellFormed(g) && IsDomTree(g, t) && Walking(g, t, g.entry, work, visited, done, f) && |work| == 1
    requires work[0].block in visited
    ensures forall b :: Live(g, b) ==> b in f && Exact(g, f[b], b)
  {
    hide Live, IsIdom, Collected, Exact, WorkOk, InFrontier;
    TopFacts(g, t, work, visited, done, f);
    ChildrenDone(g, t, work, visited, done);
    CollectedIsExact(g, t, f[g.entry], g.entry, done);
    forall b | Live(g, b)
      ensures b in done + {g.entry}
    {
      AllDone(g, t, done + {g.entry}, b);
    }
  }

  lemma WalkStarts(g: Graph, t: DomTree)
    requires WellFormed(g) && IsDomTree(g, t)
    ensures Walking(g, t, g.entry, [Work(g.entry, NoParent)], {}, {}, map[])
  {
    hide IsIdom;
    ReachRefl(EdgesOf(g), g.entry);
    assert WorkOk(g, t, g.entry, [Work(g.entry, NoParent)], {}, 0);
    forall b, c | b in t.children && c in t.children[b]
      ensures !OnList([Work(g.entry, NoParent)], c)
    {
      ChildLive(g, t, b, c);
    }
  }

  lemma TopDone(g: Graph, t: DomTree, work: seq<Work>, visited: set<Vertex>, done: set<Vertex>, f: Frontiers)
    requires Walking(g, t, g.entry, work, visited, done, f) && work[|work| - 1].block in visited
             && work[|work| - 1].block in t.children
    ensures forall c :: c in t.children[work[|work| - 1].block] ==> c in visited
  {
    hide Live, IsIdom, Collected, Exact, WorkOk;
    ChildrenDone(g, t, work, visited, done);
  }

  lemma HasFrontier(g: Graph, t: DomTree, visited: set<Vertex>, done: set<Vertex>, work: seq<Work>, f: Frontiers)
    requires Walking(g, t, g.entry, work, visited, done, f)
    ensures forall b :: b in visited ==> b in f
  {
  }

  lemma ChildNotSelf(g: Graph, t: DomTree, b: Vertex, c: Vertex)
    requires IsDomTree(g, t) && b in t.children && c in t.children[b]
    ensures c != b
  {
    hide Live, Dominates;
    assert IsIdom(g, t.idom[c], c);
  }

  lemma PushedNext(b: Vertex, cs: seq<Vertex>, i: nat)
    requires i < |cs|
    ensures Pushed(b, cs[..i + 1]) == Pushed(b, cs[..i]) + [Work(cs[i], ParentIs(b))]
  {
  }

  /** The tree is asked about live blocks only. */
  lemma StrictIs(g: Graph, t: Tree, work: seq<Work>, visited: set<Vertex>, done: set<Vertex>, f: Frontiers, b: Vertex,
                 p: Vertex)
    requires IsTree(g, t) && Walking(g, t.dom, g.entry, work, visited, done, f) && b == work[|work| - 1].block
             && b in visited && b in f
    ensures forall w :: w in f[b] ==> ((p, w) in t.strict <==> StrictlyDominates(g, p, w))
  {
    hide Live, IsIdom, WorkOk, StrictlyDominates;
    TopFacts(g, t.dom, work, visited, done, f);
    ChildrenDone(g, t.dom, work, visited, done);
    CollectedIsExact(g, t.dom, f[b], b, done);
    forall w | w in f[b]
      ensures Live(g, w)
    {
      var q :| Live(g, q) && Dominates(g, b, q) && Edge(EdgesOf(g), q, w);
      LiveEdge(g, q, w);
    }
  }

  class DominanceFrontier {
    var frontiers: Frontiers

    constructor ()
      ensures frontiers == map[]
    {
      frontiers := map[];
    }

    /** DFlocal. */
    method Local(g: Graph, t: Tree, b: Vertex) returns (s: set<Vertex>)
      requires IsTree(g, t) && Live(g, b) && b in g.succ
      ensures forall w :: w in s <==> InLocal(g, t.dom, b, w)
    {
      s := {};
      var i := 0;
      while i < |g.succ[b]|
        invariant 0 <= i <= |g.succ[b]|
        invariant forall w :: w in s <==> w in g.succ[b][..i] && !(w in t.dom.idom && t.dom.idom[w] == b)
      {
        var w := g.succ[b][i];
        if !(w in t.dom.idom && t.dom.idom[w] == b) {
          s := s + {w};
        }
        i := i + 1;
      }
    }

    /** Afterwards the frontier of every block that the entry reaches is exactly what it should be. */
    method Calculate(g: Graph, t: Tree)
      requires IsTree(g, t) && frontiers == map[]
      modifies this
      ensures forall b :: Live(g, b) ==> b in frontiers && forall w :: w in frontiers[b] <==> InFrontier(g, b, w)
    {
      hide Walking, Live, IsDomTree, InLocal, InFrontier, StrictlyDominates;
      var work := [Work(g.entry, NoParent)];
      var visited: set<Vertex> := {};
      ghost var done: set<Vertex> := {};
      WalkStarts(g, t.dom);
      while true
        invariant work != [] && visited <= g.succ.Keys && Walking(g, t.dom, g.entry, work, visited, done, frontiers)
        decreases |g.succ.Keys - visited|, |work|
      {
        TopFacts(g, t.dom, work, visited, done, frontiers);
        var x := work[|work| - 1];
        var b := x.block;
        LiveIsBlock(g, b);
        var before, unvisited := work, b !in visited;
        ghost var visited0 := visited;
        if unvisited {
          var local := Local(g, t, b);
          VisitStep(g, t.dom, work, visited, done, frontiers, local);
          SubsetSize(g.succ.Keys - (visited + {b}), g.succ.Keys - visited);
          visited := visited + {b};
          frontiers := frontiers[b := local];
        } else {
          TopDone(g, t.dom, work, visited, done, frontiers);
        }
        var cs := t.dom.children[b];
        var visitChild := false;
        var i := 0;
        ghost var f := frontiers;
        while i < |cs|
          invariant frontiers == f
          invariant 0 <= i <= |cs| && work == before + (if unvisited then Pushed(b, cs[..i]) else [])
          invariant visitChild <==> unvisited && i > 0
        {
          ChildNotSelf(g, t.dom, b, cs[i]);
          if cs[i] !in visited {
            PushedNext(b, cs, i);
            work := work + [Work(cs[i], ParentIs(b))];
            visitChild := true;
          }
          i := i + 1;
        }
        assert cs[..i] == cs;
        assert Pushed(b, []) == [];
        assert Walking(g, t.dom, g.entry, work, visited, done, frontiers);
        if !visitChild {
          assert work == before;
          if x.parent.NoParent? {
            Finished(g, t.dom, work, visited, done, frontiers);
            break;
          }
          var p := x.parent.block;
          TopFacts(g, t.dom, work, visited, done, frontiers);
          HasFrontier(g, t.dom, visited, done, work, frontiers);
          var up := frontiers[p];
          var rest := frontiers[b];
          while rest != {}
            invariant frontiers == f && rest <= frontiers[b]
            invariant forall w :: w in up <==> w in frontiers[p] || (w in frontiers[b] - rest && (p, w) !in t.strict)
          {
            var w :| w in rest;
            rest := rest - {w};
            if (p, w) !in t.strict {
              up := up + {w};
            }
          }
          StrictIs(g, t, work, visited, done, frontiers, b, p);
          LeaveStep(g, t.dom, work, visited, done, frontiers, up);
          frontiers := frontiers[p := up];
          done := done + {b};
          work := work[..|work| - 1];
        }
      }
    }
  }
}
