// CFG.cpp: back edges of a function, and whether one block or instruction may reach another.
module Cfg {
  import opened Digraph
  import opened ControlFlow
  import opened DepthFirst
  import opened Sets

  // ---------------------------------------------------------------- back edges

  /** The block above is the successor last looked at. */
  predicate LinkedAt(g: Graph, stack: seq<Frame>, i: int) {
    && 0 <= i < |stack| - 1 && stack[i].0 in g.succ && 0 < stack[i].1 <= |g.succ[stack[i].0]|
    && g.succ[stack[i].0][stack[i].1 - 1] == stack[i + 1].0
  }

  /** The stack is a path from the entry: each block is the successor last looked at by the one below. */
  ghost predicate StackPath(g: Graph, stack: seq<Frame>) {
    && (forall i {:trigger stack[i]} :: 0 <= i < |stack| ==> stack[i].0 in g.succ && stack[i].1 <= |g.succ[stack[i].0]|)
    && (forall i, j :: 0 <= i < j < |stack| ==> stack[i].0 != stack[j].0)
    && (forall i :: 0 <= i < |stack| - 1 ==> LinkedAt(g, stack, i))
    && (stack != [] ==> stack[0].0 == g.entry)
  }

  lemma {:induction false} StackReaches(g: Graph, stack: seq<Frame>, i: nat, j: nat)
    requires StackPath(g, stack) && i <= j < |stack|
    ensures Reach(EdgesOf(g), stack[i].0, stack[j].0)
    decreases j
  {
    hide Reach;
    if i == j {
      ReachRefl(EdgesOf(g), stack[i].0);
    } else {
      StackReaches(g, stack, i, j - 1);
      assert LinkedAt(g, stack, j - 1);
      ReachEdge(EdgesOf(g), stack[j - 1].0, stack[j].0);
      ReachTrans(EdgesOf(g), stack[i].0, stack[j - 1].0, stack[j].0);
    }
  }

  /** The finish order: for every block that is finished, each edge is a back edge or leads to one
      that was finished before. */
  ghost predicate Descends(g: Graph, done: seq<Vertex>, result: seq<(Vertex, Vertex)>) {
    && Distinct(done)
    && (forall i {:trigger done[i]} :: 0 <= i < |done| ==> done[i] in g.succ)
    && (forall i, v {:trigger v in g.succ[done[i]]} ::
         0 <= i < |done| && v in g.succ[done[i]] ==> (done[i], v) in result || v in done[..i])
  }

  /** What is known of the successors that a block on the stack has looked at already. */
  ghost predicate FrameDone(g: Graph, done: seq<Vertex>, result: seq<(Vertex, Vertex)>, f: Frame, n: int) {
    forall k ::
        0 <= k < n && f.0 in g.succ && k < |g.succ[f.0]| ==> (f.0, g.succ[f.0][k]) in result || g.succ[f.0][k] in done
  }

  /** How many successors of the i-th block are done with: the last one looked at may be on the stack. */
  function Looked(stack: seq<Frame>, i: nat): int
    requires i < |stack|
  {
    if i == |stack| - 1 then stack[i].1 else stack[i].1 as int - 1
  }

  ghost predicate FramesDone(g: Graph, done: seq<Vertex>, result: seq<(Vertex, Vertex)>, stack: seq<Frame>) {
    forall i {:trigger stack[i]} :: 0 <= i < |stack| ==>
      FrameDone(g, done, result, stack[i], Looked(stack, i))
  }

  ghost predicate Visited(visited: set<Vertex>, done: seq<Vertex>, stack: seq<Frame>) {
    && (forall v :: v in visited <==> v in done || OnStack(stack, v))
    && (forall v :: v in done ==> !OnStack(stack, v))
  }

  /** Every edge found is real, and closes a cycle. */
  ghost predicate AllClose(g: Graph, result: seq<(Vertex, Vertex)>) {
    forall u, v {:trigger (u, v) in result} :: (u, v) in result ==>
      Edge(EdgesOf(g), u, v) && Reach(EdgesOf(g), v, u) && Live(g, u)
  }

  ghost predicate Searching(g: Graph, visited: set<Vertex>, stack: seq<Frame>, done: seq<Vertex>,
                            result: seq<(Vertex, Vertex)>) {
    && StackPath(g, stack) && Descends(g, done, result) && FramesDone(g, done, result, stack)
    && Visited(visited, done, stack) && AllClose(g, result) && visited <= g.succ.Keys
    && (forall u, v {:trigger (u, v) in result} :: (u, v) in result ==> v in visited)
  }

  /** The graph without the back edges. */
  ghost function Forward(g: Graph, result: seq<(Vertex, Vertex)>): (e: Edges)
    ensures forall u, v {:trigger Edge(e, u, v)} :: Edge(e, u, v) <==> Edge(EdgesOf(g), u, v) && (u, v) !in result
  {
    EdgesOf(g) - set p | p in result
  }

  lemma {:induction false} ForwardPath(g: Graph, done: seq<Vertex>, result: seq<(Vertex, Vertex)>, i: nat, p: Path,
                                       v: Vertex)
    requires Descends(g, done, result) && i < |done| && Follows(Forward(g, result), done[i], p, v)
    ensures v in done[..i + 1] && (p != Here ==> v in done[..i])
    decreases p
  {
    if p.Via? {
      var x := p.next;
      assert Edge(EdgesOf(g), done[i], x) && (done[i], x) !in result;
      assert x in g.succ[done[i]];
      var j :| 0 <= j < i && done[j] == x;
      ForwardPath(g, done, result, j, p.rest, v);
      assert done[..j + 1] <= done[..i];
    } else {
      assert done[..i + 1][i] == done[i];
    }
  }

  /** Without the back edges nothing that is finished is on a cycle. */
  lemma NoForwardCycle(g: Graph, done: seq<Vertex>, result: seq<(Vertex, Vertex)>, u: Vertex, v: Vertex)
    requires Descends(g, done, result) && u in done && Edge(Forward(g, result), u, v)
    ensures !Reach(Forward(g, result), v, u)
  {
    if Reach(Forward(g, result), v, u) {
      var p :| Follows(Forward(g, result), v, p, u);
      var i :| 0 <= i < |done| && done[i] == u;
      ForwardPath(g, done, result, i, Via(v, p), u);
    }
  }

  /** When the stack is empty, everything that the entry reaches is finished. */
  lemma SearchDone(g: Graph, visited: set<Vertex>, done: seq<Vertex>, result: seq<(Vertex, Vertex)>)
    requires WellFormed(g) && Searching(g, visited, [], done, result) && g.entry in visited
    ensures AllClose(g, result)
    ensures forall u, v {:trigger Edge(Forward(g, result), u, v)} ::
              Live(g, u) && Edge(Forward(g, result), u, v) ==> !Reach(Forward(g, result), v, u)
  {
    hide AllClose, Reach;
    forall u, v | u in visited && Edge(EdgesOf(g), u, v)
      ensures v in visited
    {
      var i :| 0 <= i < |done| && done[i] == u;
      assert v in g.succ[done[i]];
    }
    forall u, v | Live(g, u) && Edge(Forward(g, result), u, v)
      ensures !Reach(Forward(g, result), v, u)
    {
      ClosedReach(EdgesOf(g), visited, g.entry, u);
      NoForwardCycle(g, done, result, u, v);
    }
  }

  lemma MoreResults(g: Graph, done: seq<Vertex>, result: seq<(Vertex, Vertex)>, result': seq<(Vertex, Vertex)>,
                    stack: seq<Frame>)
    requires Descends(g, done, result) && FramesDone(g, done, result, stack) && result <= result'
    ensures Descends(g, done, result') && FramesDone(g, done, result', stack)
  {
    assert forall e :: e in result ==> e in result';
    forall i | 0 <= i < |stack|
      ensures FrameDone(g, done, result', stack[i], Looked(stack, i))
    {
      assert FrameDone(g, done, result, stack[i], Looked(stack, i));
    }
  }

  /** The next successor has been finished, or the edge to it is a back edge. */
  lemma AdvanceFrames(g: Graph, done: seq<Vertex>, result: seq<(Vertex, Vertex)>, stack: seq<Frame>)
    requires StackPath(g, stack) && stack != [] && FramesDone(g, done, result, stack)
    requires var f := stack[|stack| - 1];
             f.1 < |g.succ[f.0]| && ((f.0, g.succ[f.0][f.1]) in result || g.succ[f.0][f.1] in done)
    ensures StackPath(g, Advanced(stack)) && FramesDone(g, done, result, Advanced(stack))
  {
    var n := |stack| - 1;
    var f := stack[n];
    assert FrameDone(g, done, result, stack[n], f.1);
    var s := Advanced(stack);
    forall i | 0 <= i < |s|
      ensures FrameDone(g, done, result, s[i], Looked(s, i))
    {
      if i < n {
        assert s[i] == stack[i];
      }
    }
    StackAdvanced(g, stack);
  }

  lemma StackAdvanced(g: Graph, stack: seq<Frame>)
    requires StackPath(g, stack) && stack != [] && stack[|stack| - 1].1 < |g.succ[stack[|stack| - 1].0]|
    ensures StackPath(g, Advanced(stack))
  {
    var s := Advanced(stack);
    var n := |stack| - 1;
    assert s[n] == (stack[n].0, stack[n].1 + 1);
    forall i, j | 0 <= i < j < |s|
      ensures s[i].0 != s[j].0
    {
      assert s[i].0 == stack[i].0 && s[j].0 == stack[j].0;
    }
    forall i | 0 <= i < n
      ensures LinkedAt(g, s, i)
    {
      assert LinkedAt(g, stack, i);
      assert s[i] == stack[i] && s[i + 1].0 == stack[i + 1].0;
    }
    assert s[0].0 == stack[0].0;
  }

  /** A successor that is on the stack closes a cycle. */
  lemma BackEdge(g: Graph, visited: set<Vertex>, stack: seq<Frame>, done: seq<Vertex>, result: seq<(Vertex, Vertex)>)
    requires Searching(g, visited, stack, done, result) && stack != []
    requires var f := stack[|stack| - 1]; f.1 < |g.succ[f.0]| && OnStack(stack, g.succ[f.0][f.1])
    ensures var f := stack[|stack| - 1];
            Searching(g, visited, Advanced(stack), done, result + [(f.0, g.succ[f.0][f.1])])
  {
    hide Reach, StackPath, FramesDone, Descends;
    var f := stack[|stack| - 1];
    StackFacts(g, stack);
    var b := g.succ[f.0][f.1];
    var result' := result + [(f.0, b)];
    var i :| 0 <= i < |stack| && stack[i].0 == b;
    StackReaches(g, stack, i, |stack| - 1);
    StackReaches(g, stack, 0, |stack| - 1);
    MoreResults(g, done, result, result', stack);
    AdvanceFrames(g, done, result', stack);
    AdvancedOnStack(stack);
    forall u, v | (u, v) in result'
      ensures Edge(EdgesOf(g), u, v) && Reach(EdgesOf(g), v, u) && Live(g, u) && v in visited
    {
      assert (u, v) in result || (u == f.0 && v == b);
    }
  }

  lemma StackFacts(g: Graph, stack: seq<Frame>)
    requires StackPath(g, stack) && stack != []
    ensures stack[|stack| - 1].0 in g.succ && stack[|stack| - 1].1 <= |g.succ[stack[|stack| - 1].0]|
            && stack[0].0 == g.entry
  {
  }

  /** A successor that is finished already. */
  lemma OldEdge(g: Graph, visited: set<Vertex>, stack: seq<Frame>, done: seq<Vertex>, result: seq<(Vertex, Vertex)>)
    requires Searching(g, visited, stack, done, result) && stack != []
    requires var f := stack[|stack| - 1];
             f.1 < |g.succ[f.0]| && g.succ[f.0][f.1] in visited && !OnStack(stack, g.succ[f.0][f.1])
    ensures Searching(g, visited, Advanced(stack), done, result)
  {
    hide Reach, StackPath, FramesDone, Descends, AllClose;
    StackFacts(g, stack);
    AdvanceFrames(g, done, result, stack);
    AdvancedOnStack(stack);
  }

  /** A successor not seen before: the search goes down. */
  lemma GoDown(g: Graph, visited: set<Vertex>, stack: seq<Frame>, done: seq<Vertex>, result: seq<(Vertex, Vertex)>)
    requires WellFormed(g) && Searching(g, visited, stack, done, result) && stack != []
    requires var f := stack[|stack| - 1]; f.1 < |g.succ[f.0]| && g.succ[f.0][f.1] !in visited
    ensures var f := stack[|stack| - 1];
            Searching(g, visited + {g.succ[f.0][f.1]}, Advanced(stack) + [(g.succ[f.0][f.1], 0)], done, result)
  {
    hide Reach, Descends, AllClose, FrameDone, StackPath;
    StackFacts(g, stack);
    var f := stack[|stack| - 1];
    var b := g.succ[f.0][f.1];
    var s := Advanced(stack) + [(b, 0)];
    AdvancedOnStack(stack);
    PushedOnStack(Advanced(stack), b);
    StackAdvanced(g, stack);
    PushedPath(g, Advanced(stack), b);
    forall i | 0 <= i < |s|
      ensures FrameDone(g, done, result, s[i], Looked(s, i))
    {
      if i == |s| - 1 {
        NothingLooked(g, done, result, b);
      } else if i < |stack| - 1 {
        assert s[i] == stack[i];
      } else {
        assert s[i] == (f.0, f.1 + 1);
        FrameSame(g, done, result, f, s[i], f.1);
      }
    }
  }

  lemma NothingLooked(g: Graph, done: seq<Vertex>, result: seq<(Vertex, Vertex)>, b: Vertex)
    ensures FrameDone(g, done, result, (b, 0), 0)
  {
  }

  lemma FrameSame(g: Graph, done: seq<Vertex>, result: seq<(Vertex, Vertex)>, f: Frame, f': Frame, n: int)
    requires FrameDone(g, done, result, f, n) && f'.0 == f.0
    ensures FrameDone(g, done, result, f', n)
  {
  }

  lemma PushedPath(g: Graph, stack: seq<Frame>, b: Vertex)
    requires StackPath(g, stack) && stack != [] && !OnStack(stack, b) && b in g.succ
    requires var f := stack[|stack| - 1]; f.1 > 0 && g.succ[f.0][f.1 - 1] == b
    ensures StackPath(g, stack + [(b, 0)])
  {
    var s := stack + [(b, 0)];
    forall i, j | 0 <= i < j < |s|
      ensures s[i].0 != s[j].0
    {
      assert s[i] == stack[i];
    }
    forall i | 0 <= i < |s| - 1
      ensures LinkedAt(g, s, i)
    {
      if i < |stack| - 1 {
        assert LinkedAt(g, stack, i);
        assert s[i] == stack[i] && s[i + 1] == stack[i + 1];
      } else {
        assert s[i] == stack[i] && s[i + 1] == (b, 0);
      }
    }
  }

  /** A block whose successors have all been looked at is finished: the search goes up. */
  lemma GoUp(g: Graph, visited: set<Vertex>, stack: seq<Frame>, done: seq<Vertex>, result: seq<(Vertex, Vertex)>)
    requires Searching(g, visited, stack, done, result) && stack != []
    requires var f := stack[|stack| - 1]; f.1 == |g.succ[f.0]|
    ensures Searching(g, visited, stack[..|stack| - 1], done + [stack[|stack| - 1].0], result)
  {
    hide Reach, AllClose;
    var n := |stack| - 1;
    var f, s := stack[n], stack[..n];
    var done' := done + [f.0];
    assert forall v :: v in done' <==> v in done || v == f.0;
    PoppedOnStack(stack);
    assert OnStack(stack, f.0) && !OnStack(s, f.0) by {
      assert stack[n].0 == f.0;
    }
    PoppedPath(g, stack);
    PoppedFrames(g, done, result, stack);
    assert FrameDone(g, done, result, stack[n], f.1);
    forall i, v | 0 <= i < |done'| && v in g.succ[done'[i]]
      ensures (done'[i], v) in result || v in done'[..i]
    {
      if i < |done| {
        assert done'[i] == done[i] && done'[..i] == done[..i];
      } else {
        assert done'[..i] == done;
        var k :| 0 <= k < |g.succ[f.0]| && g.succ[f.0][k] == v;
      }
    }
  }

  lemma PoppedOnStack(stack: seq<Frame>)
    requires stack != []
    ensures forall v :: OnStack(stack, v) ==> OnStack(stack[..|stack| - 1], v) || v == stack[|stack| - 1].0
    ensures forall v :: OnStack(stack[..|stack| - 1], v) ==> OnStack(stack, v)
  {
    var s := stack[..|stack| - 1];
    forall v | OnStack(stack, v) && v != stack[|stack| - 1].0
      ensures OnStack(s, v)
    {
      var i :| 0 <= i < |stack| && stack[i].0 == v;
      assert s[i].0 == v;
    }
    forall v | OnStack(s, v)
      ensures OnStack(stack, v)
    {
      var i :| 0 <= i < |s| && s[i].0 == v;
      assert stack[i].0 == v;
    }
  }

  lemma PoppedPath(g: Graph, stack: seq<Frame>)
    requires StackPath(g, stack) && stack != []
    ensures StackPath(g, stack[..|stack| - 1])
  {
    var s := stack[..|stack| - 1];
    forall i | 0 <= i < |s| - 1
      ensures LinkedAt(g, s, i)
    {
      assert LinkedAt(g, stack, i);
    }
  }

  lemma PoppedFrames(g: Graph, done: seq<Vertex>, result: seq<(Vertex, Vertex)>, stack: seq<Frame>)
    requires StackPath(g, stack) && stack != [] && FramesDone(g, done, result, stack)
    ensures FramesDone(g, done + [stack[|stack| - 1].0], result, stack[..|stack| - 1])
  {
    var n := |stack| - 1;
    var s, done' := stack[..n], done + [stack[n].0];
    assert forall v :: v in done ==> v in done';
    assert stack[n].0 in done' by { assert done'[|done|] == stack[n].0; }
    forall i | 0 <= i < |s|
      ensures FrameDone(g, done', result, s[i], Looked(s, i))
    {
      assert s[i] == stack[i];
      assert FrameDone(g, done, result, stack[i], Looked(stack, i));
      if i == n - 1 {
        assert LinkedAt(g, stack, i);
      }
    }
  }

  lemma SearchStarts(g: Graph)
    requires WellFormed(g)
    ensures Searching(g, {g.entry}, [(g.entry, 0)], [], []) && forall v :: OnStack([(g.entry, 0)], v) <==> v == g.entry
  {
    assert [(g.entry, 0)][0].0 == g.entry;
  }

  lemma EntryOnly(g: Graph)
    requires WellFormed(g) && g.succ[g.entry] == []
    ensures forall u, v {:trigger Edge(Forward(g, []), u, v)} ::
              Live(g, u) && Edge(Forward(g, []), u, v) ==> !Reach(Forward(g, []), v, u)
  {
    hide Reach;
    forall u | Live(g, u)
      ensures u == g.entry
    {
      ClosedReach(EdgesOf(g), {g.entry}, g.entry, u);
    }
  }

  // ---------------------------------------------------------------- the tree of the search

  /** v is below u on the stack, or u itself. */
  ghost predicate Underneath(stack: seq<Frame>, v: Vertex, u: Vertex) {
    exists i, j :: 0 <= i <= j < |stack| && stack[i].0 == v && stack[j].0 == u
  }

  /** Every block visited has been found from one other block, but the entry; the stack is the path that was
      taken; and a block is finished after those found from it. */
  ghost predicate SearchTree(g: Graph, visited: set<Vertex>, stack: seq<Frame>, done: seq<Vertex>, tree: Edges) {
    TreeEdges(g, visited, stack, done, tree) && forall v :: v in visited ==> Reach(tree, g.entry, v)
  }

  ghost predicate TreeEdges(g: Graph, visited: set<Vertex>, stack: seq<Frame>, done: seq<Vertex>, tree: Edges) {
    && (forall x, w {:trigger Edge(tree, x, w)} :: Edge(tree, x, w) ==>
          Edge(EdgesOf(g), x, w) && w in visited && w != g.entry)
    && (forall x, y, w {:trigger Edge(tree, x, w), Edge(tree, y, w)} :: Edge(tree, x, w) && Edge(tree, y, w) ==> x == y)
    && (forall i {:trigger stack[i]} :: 0 <= i < |stack| - 1 ==> Edge(tree, stack[i].0, stack[i + 1].0))
    && (forall i, w {:trigger Edge(tree, done[i], w)} :: 0 <= i < |done| && Edge(tree, done[i], w) ==> w in done[..i])
  }

  /** Was v not finished before u? */
  ghost predicate NotBefore(done: seq<Vertex>, u: Vertex, v: Vertex) {
    exists i :: 0 <= i < |done| && done[i] == u && v !in done[..i]
  }

  /** An edge found leads back on the path of the search, to a block that is finished later. */
  ghost predicate LeadsBack(stack: seq<Frame>, done: seq<Vertex>, tree: Edges, u: Vertex, v: Vertex) {
    Reach(tree, v, u) && (Underneath(stack, v, u) || NotBefore(done, u, v))
  }

  ghost predicate AllLeadBack(stack: seq<Frame>, done: seq<Vertex>, tree: Edges, result: seq<(Vertex, Vertex)>) {
    forall u, v {:trigger (u, v) in result} :: (u, v) in result ==> LeadsBack(stack, done, tree, u, v)
  }

  lemma {:induction false} PathMore(e: Edges, e': Edges, u: Vertex, p: Path, v: Vertex)
    requires Follows(e, u, p, v) && e <= e'
    ensures Follows(e', u, p, v)
    decreases p
  {
    if p.Via? {
      PathMore(e, e', p.next, p.rest, v);
    }
  }

  lemma ReachMore(e: Edges, e': Edges, u: Vertex, v: Vertex)
    requires Reach(e, u, v) && e <= e'
    ensures Reach(e', u, v)
  {
    var p :| Follows(e, u, p, v);
    PathMore(e, e', u, p, v);
  }

  lemma {:induction false} TreeReaches(tree: Edges, stack: seq<Frame>, i: nat, j: nat)
    requires i <= j < |stack|
    requires forall k {:trigger stack[k]} :: 0 <= k < |stack| - 1 ==> Edge(tree, stack[k].0, stack[k + 1].0)
    ensures Reach(tree, stack[i].0, stack[j].0)
    decreases j
  {
    hide Reach;
    if i == j {
      ReachRefl(tree, stack[i].0);
    } else {
      TreeReaches(tree, stack, i, j - 1);
      assert Edge(tree, stack[j - 1].0, stack[j - 1 + 1].0);
      ReachEdge(tree, stack[j - 1].0, stack[j].0);
      ReachTrans(tree, stack[i].0, stack[j - 1].0, stack[j].0);
    }
  }

  lemma UnderneathAdvanced(stack: seq<Frame>, v: Vertex, u: Vertex)
    requires stack != [] && Underneath(stack, v, u)
    ensures Underneath(Advanced(stack), v, u)
  {
    var i, j :| 0 <= i <= j < |stack| && stack[i].0 == v && stack[j].0 == u;
    assert Advanced(stack)[i].0 == v && Advanced(stack)[j].0 == u;
  }

  lemma UnderneathPushed(stack: seq<Frame>, f: Frame, v: Vertex, u: Vertex)
    requires Underneath(stack, v, u)
    ensures Underneath(stack + [f], v, u)
  {
    var i, j :| 0 <= i <= j < |stack| && stack[i].0 == v && stack[j].0 == u;
    assert (stack + [f])[i].0 == v && (stack + [f])[j].0 == u;
  }

  lemma UnderneathPopped(stack: seq<Frame>, v: Vertex, u: Vertex)
    requires Underneath(stack, v, u) && stack != [] && u != stack[|stack| - 1].0
    ensures Underneath(stack[..|stack| - 1], v, u)
  {
    var i, j :| 0 <= i <= j < |stack| && stack[i].0 == v && stack[j].0 == u;
    assert stack[..|stack| - 1][i].0 == v && stack[..|stack| - 1][j].0 == u;
  }

  lemma UnderneathIsOn(stack: seq<Frame>, v: Vertex, u: Vertex)
    requires Underneath(stack, v, u)
    ensures OnStack(stack, v) && OnStack(stack, u)
  {
  }

  /** The tree does not change when the top block looks at a successor that has been visited. */
  lemma TreeAdvanced(g: Graph, visited: set<Vertex>, stack: seq<Frame>, done: seq<Vertex>, tree: Edges,
                     result: seq<(Vertex, Vertex)>)
    requires SearchTree(g, visited, stack, done, tree) && AllLeadBack(stack, done, tree, result) && stack != []
    ensures SearchTree(g, visited, Advanced(stack), done, tree) && AllLeadBack(Advanced(stack), done, tree, result)
  {
    hide Reach, Underneath, NotBefore;
    var s := Advanced(stack);
    assert forall i :: 0 <= i < |stack| ==> s[i].0 == stack[i].0;
    forall i {:trigger s[i]} | 0 <= i < |s| - 1
      ensures Edge(tree, s[i].0, s[i + 1].0)
    {
      assert Edge(tree, stack[i].0, stack[i + 1].0);
    }
    forall u, v | (u, v) in result
      ensures LeadsBack(s, done, tree, u, v)
    {
      if Underneath(stack, v, u) {
        UnderneathAdvanced(stack, v, u);
      }
    }
  }

  /** A back edge leads down the stack. */
  lemma BackLeadsBack(g: Graph, visited: set<Vertex>, stack: seq<Frame>, done: seq<Vertex>, tree: Edges,
                      result: seq<(Vertex, Vertex)>, v: Vertex)
    requires SearchTree(g, visited, stack, done, tree) && AllLeadBack(stack, done, tree, result) && stack != []
    requires OnStack(stack, v)
    ensures AllLeadBack(stack, done, tree, result + [(stack[|stack| - 1].0, v)])
  {
    hide Reach, NotBefore;
    var n := |stack| - 1;
    var i :| 0 <= i < |stack| && stack[i].0 == v;
    TreeReaches(tree, stack, i, n);
    assert Underneath(stack, v, stack[n].0);
    var result' := result + [(stack[n].0, v)];
    forall x, y | (x, y) in result'
      ensures LeadsBack(stack, done, tree, x, y)
    {
      assert (x, y) in result || (x == stack[n].0 && y == v);
    }
  }

  /** A new block hangs below the top one. */
  lemma TreeDown(g: Graph, visited: set<Vertex>, stack: seq<Frame>, done: seq<Vertex>, tree: Edges,
                 result: seq<(Vertex, Vertex)>, b: Vertex)
    requires SearchTree(g, visited, stack, done, tree) && AllLeadBack(stack, done, tree, result) && stack != []
    requires b !in visited && g.entry in visited && Edge(EdgesOf(g), stack[|stack| - 1].0, b)
    requires Visited(visited, done, stack)
    ensures var tree' := tree + {(stack[|stack| - 1].0, b)};
            && SearchTree(g, visited + {b}, stack + [(b, 0)], done, tree')
            && AllLeadBack(stack + [(b, 0)], done, tree', result)
  {
    hide Reach, OnStack, SearchTree, AllLeadBack;
    ReachDown(g, visited, stack, done, tree, b);
    EdgesDown(g, visited, stack, done, tree, b);
    TreeIs(g, visited + {b}, stack + [(b, 0)], done, tree + {(stack[|stack| - 1].0, b)});
    BackDown(stack, done, tree, result, b);
  }

  lemma TreeIs(g: Graph, visited: set<Vertex>, stack: seq<Frame>, done: seq<Vertex>, tree: Edges)
    requires forall v :: v in visited ==> Reach(tree, g.entry, v)
    requires TreeEdges(g, visited, stack, done, tree)
    ensures SearchTree(g, visited, stack, done, tree)
  {
    hide Reach;
  }

  lemma ReachDown(g: Graph, visited: set<Vertex>, stack: seq<Frame>, done: seq<Vertex>, tree: Edges, b: Vertex)
    requires SearchTree(g, visited, stack, done, tree) && stack != [] && Visited(visited, done, stack)
    ensures forall v :: v in visited + {b} ==> Reach(tree + {(stack[|stack| - 1].0, b)}, g.entry, v)
  {
    hide Reach, OnStack;
    var x := stack[|stack| - 1].0;
    var tree' := tree + {(x, b)};
    IsOn(stack, |stack| - 1);
    forall v | v in visited + {b}
      ensures Reach(tree', g.entry, v)
    {
      if v in visited {
        ReachMore(tree, tree', g.entry, v);
      } else {
        ReachMore(tree, tree', g.entry, x);
        ReachEdge(tree', x, b);
        ReachTrans(tree', g.entry, x, b);
      }
    }
  }

  lemma EdgesDown(g: Graph, visited: set<Vertex>, stack: seq<Frame>, done: seq<Vertex>, tree: Edges, b: Vertex)
    requires SearchTree(g, visited, stack, done, tree) && stack != [] && Visited(visited, done, stack)
    requires b !in visited && g.entry in visited && Edge(EdgesOf(g), stack[|stack| - 1].0, b)
    ensures TreeEdges(g, visited + {b}, stack + [(b, 0)], done, tree + {(stack[|stack| - 1].0, b)})
  {
    hide Reach, OnStack;
    var x := stack[|stack| - 1].0;
    assert forall y, w :: Edge(tree + {(x, b)}, y, w) <==> Edge(tree, y, w) || (y == x && w == b);
    IsOn(stack, |stack| - 1);
    StackDown(stack, tree, b);
    DoneDown(done, tree, x, b);
  }

  lemma StackDown(stack: seq<Frame>, tree: Edges, b: Vertex)
    requires stack != []
             && forall i {:trigger stack[i]} :: 0 <= i < |stack| - 1 ==> Edge(tree, stack[i].0, stack[i + 1].0)
    ensures var s := stack + [(b, 0)];
            forall i {:trigger s[i]} ::
                0 <= i < |s| - 1 ==> Edge(tree + {(stack[|stack| - 1].0, b)}, s[i].0, s[i + 1].0)
  {
    var s := stack + [(b, 0)];
    forall i {:trigger s[i]} | 0 <= i < |s| - 1
      ensures Edge(tree + {(stack[|stack| - 1].0, b)}, s[i].0, s[i + 1].0)
    {
      if i < |stack| - 1 {
        assert s[i] == stack[i] && s[i + 1] == stack[i + 1] && Edge(tree, stack[i].0, stack[i + 1].0);
      }
    }
  }

  lemma DoneDown(done: seq<Vertex>, tree: Edges, x: Vertex, b: Vertex)
    requires x !in done
    requires forall i, w {:trigger Edge(tree, done[i], w)} ::
               0 <= i < |done| && Edge(tree, done[i], w) ==> w in done[..i]
    ensures forall i, w {:trigger Edge(tree + {(x, b)}, done[i], w)} ::
              0 <= i < |done| && Edge(tree + {(x, b)}, done[i], w) ==> w in done[..i]
  {
    forall i, w {:trigger Edge(tree + {(x, b)}, done[i], w)} | 0 <= i < |done| && Edge(tree + {(x, b)}, done[i], w)
      ensures w in done[..i]
    {
      assert done[i] in done && Edge(tree, done[i], w);
    }
  }

  lemma BackDown(stack: seq<Frame>, done: seq<Vertex>, tree: Edges, result: seq<(Vertex, Vertex)>, b: Vertex)
    requires AllLeadBack(stack, done, tree, result) && stack != []
    ensures AllLeadBack(stack + [(b, 0)], done, tree + {(stack[|stack| - 1].0, b)}, result)
  {
    hide Reach, Underneath, NotBefore;
    var tree' := tree + {(stack[|stack| - 1].0, b)};
    forall u, v | (u, v) in result
      ensures LeadsBack(stack + [(b, 0)], done, tree', u, v)
    {
      ReachMore(tree, tree', v, u);
      if Underneath(stack, v, u) {
        UnderneathPushed(stack, (b, 0), v, u);
      }
    }
  }

  lemma IsOn(stack: seq<Frame>, i: nat)
    requires i < |stack|
    ensures OnStack(stack, stack[i].0)
  {
  }

  /** The top block is finished: so are all that were found from it, and none that is on the stack. */
  lemma TreeUp(g: Graph, visited: set<Vertex>, stack: seq<Frame>, done: seq<Vertex>, tree: Edges,
               result: seq<(Vertex, Vertex)>)
    requires SearchTree(g, visited, stack, done, tree) && AllLeadBack(stack, done, tree, result) && stack != []
    requires StackPath(g, stack) && Visited(visited, done, stack)
    ensures var done' := done + [stack[|stack| - 1].0];
            && SearchTree(g, visited, stack[..|stack| - 1], done', tree)
            && AllLeadBack(stack[..|stack| - 1], done', tree, result)
  {
    hide Reach, Underneath, NotBefore, OnStack;
    var n := |stack| - 1;
    var x := stack[n].0;
    var s, done' := stack[..n], done + [x];
    forall i {:trigger s[i]} | 0 <= i < |s| - 1
      ensures Edge(tree, s[i].0, s[i + 1].0)
    {
      assert s[i] == stack[i] && s[i + 1] == stack[i + 1];
    }
    forall i, w {:trigger Edge(tree, done'[i], w)} | 0 <= i < |done'| && Edge(tree, done'[i], w)
      ensures w in done'[..i]
    {
      if i < |done| {
        assert done'[i] == done[i] && done'[..i] == done[..i] && Edge(tree, done[i], w);
      } else {
        assert done'[..i] == done;
        FoundFromTop(g, visited, stack, done, tree, w);
      }
    }
    forall u, v | (u, v) in result
      ensures LeadsBack(s, done', tree, u, v)
    {
      if Underneath(stack, v, u) {
        UnderneathIsOn(stack, v, u);
        if u == x {
          assert done'[|done|] == u && v !in done'[..|done|] by { assert done'[..|done|] == done; }
          IsNotBefore(done', u, v, |done|);
        } else {
          UnderneathPopped(stack, v, u);
        }
      } else {
        NotBeforeMore(done, u, v, x);
      }
    }
  }

  lemma IsNotBefore(done: seq<Vertex>, u: Vertex, v: Vertex, i: nat)
    requires i < |done| && done[i] == u && v !in done[..i]
    ensures NotBefore(done, u, v)
  {
  }

  lemma NotBeforeMore(done: seq<Vertex>, u: Vertex, v: Vertex, x: Vertex)
    requires NotBefore(done, u, v)
    ensures NotBefore(done + [x], u, v)
  {
    var i :| 0 <= i < |done| && done[i] == u && v !in done[..i];
    assert (done + [x])[i] == u && (done + [x])[..i] == done[..i];
  }

  lemma FoundFromTop(g: Graph, visited: set<Vertex>, stack: seq<Frame>, done: seq<Vertex>, tree: Edges, w: Vertex)
    requires SearchTree(g, visited, stack, done, tree) && stack != [] && StackPath(g, stack)
    requires Visited(visited, done, stack) && Edge(tree, stack[|stack| - 1].0, w)
    ensures w in done
  {
    hide Reach;
    forall k | 0 <= k < |stack|
      ensures stack[k].0 != w
    {
      if k > 0 {
        assert Edge(tree, stack[k - 1].0, stack[k - 1 + 1].0);
      }
    }
  }

  lemma TreeStarts(g: Graph)
    requires WellFormed(g)
    ensures SearchTree(g, {g.entry}, [(g.entry, 0)], [], {}) && AllLeadBack([(g.entry, 0)], [], {}, [])
  {
    ReachRefl({}, g.entry);
  }

  // ---------------------------------------------------------------- the result

  /** A depth-first search of the live blocks: a tree of edges that hangs from the entry, and an order in which
      every block comes after those found from it. */
  ghost predicate IsSearch(g: Graph, tree: Edges, order: seq<Vertex>) {
    && Distinct(order) && (forall v {:trigger Live(g, v)} :: v in order <==> Live(g, v))
    && (forall x, w {:trigger Edge(tree, x, w)} :: Edge(tree, x, w) ==> Edge(EdgesOf(g), x, w) && w != g.entry)
    && (forall x, y, w {:trigger Edge(tree, x, w), Edge(tree, y, w)} :: Edge(tree, x, w) && Edge(tree, y, w) ==> x == y)
    && (forall v :: v in order ==> Reach(tree, g.entry, v))
    && (forall i, w {:trigger Edge(tree, order[i], w)} ::
          0 <= i < |order| && Edge(tree, order[i], w) ==> w in order[..i])
  }

  /** The edges of live blocks that do not lead to a block earlier in the order. */
  ghost predicate Retreating(g: Graph, order: seq<Vertex>, result: seq<(Vertex, Vertex)>) {
    && (forall u, v {:trigger (u, v) in result} :: (u, v) in result ==> u in order && Edge(EdgesOf(g), u, v))
    && (forall i, v {:trigger v in order[..i]} {:trigger Edge(EdgesOf(g), order[i], v)} ::
          0 <= i < |order| && Edge(EdgesOf(g), order[i], v) ==> ((order[i], v) in result <==> v !in order[..i]))
  }

  /** The result lists each edge whose target is an ancestor of its source, on the search path. */
  ghost predicate ToAncestors(tree: Edges, result: seq<(Vertex, Vertex)>) {
    forall u, v {:trigger (u, v) in result} :: (u, v) in result ==> Reach(tree, v, u)
  }

  lemma TreeInGraph(g: Graph, tree: Edges, v: Vertex)
    requires Reach(tree, g.entry, v)
    requires forall x, w {:trigger Edge(tree, x, w)} :: Edge(tree, x, w) ==> Edge(EdgesOf(g), x, w)
    ensures Live(g, v)
  {
    hide Reach;
    forall p | p in tree
      ensures p in EdgesOf(g)
    {
      assert Edge(tree, p.0, p.1);
    }
    ReachMore(tree, EdgesOf(g), g.entry, v);
  }

  lemma DoneIsVisited(g: Graph, visited: set<Vertex>, done: seq<Vertex>, result: seq<(Vertex, Vertex)>)
    requires WellFormed(g) && Searching(g, visited, [], done, result) && g.entry in visited
    ensures forall v :: v in done <==> v in visited
    ensures forall v {:trigger Live(g, v)} :: Live(g, v) ==> v in visited
  {
    hide AllClose, Reach;
    forall u, v | u in visited && Edge(EdgesOf(g), u, v)
      ensures v in visited
    {
      var i :| 0 <= i < |done| && done[i] == u;
      assert v in g.succ[done[i]];
    }
    forall v | Live(g, v)
      ensures v in visited
    {
      ClosedReach(EdgesOf(g), visited, g.entry, v);
    }
  }

  /** When the stack is empty. */
  lemma SearchIsDone(g: Graph, visited: set<Vertex>, done: seq<Vertex>, tree: Edges, result: seq<(Vertex, Vertex)>)
    requires WellFormed(g) && Searching(g, visited, [], done, result) && g.entry in visited
    requires SearchTree(g, visited, [], done, tree) && AllLeadBack([], done, tree, result)
    ensures IsSearch(g, tree, done) && Retreating(g, done, result) && ToAncestors(tree, result)
  {
    hide AllClose, Reach;
    DoneIsVisited(g, visited, done, result);
    forall v | v in done
      ensures Live(g, v)
    {
      TreeInGraph(g, tree, v);
    }
    forall u, v | (u, v) in result
      ensures u in done && Edge(EdgesOf(g), u, v)
    {
      assert LeadsBack([], done, tree, u, v);
      FoundIsEdge(g, result, u, v);
    }
    forall i, v | 0 <= i < |done| && Edge(EdgesOf(g), done[i], v)
      ensures (done[i], v) in result <==> v !in done[..i]
    {
      assert v in g.succ[done[i]];
      if (done[i], v) in result {
        assert LeadsBack([], done, tree, done[i], v);
        var j :| 0 <= j < |done| && done[j] == done[i] && v !in done[..j];
        assert i == j;
      }
    }
  }

  lemma FoundIsEdge(g: Graph, result: seq<(Vertex, Vertex)>, u: Vertex, v: Vertex)
    requires AllClose(g, result) && (u, v) in result
    ensures Edge(EdgesOf(g), u, v)
  {
  }

  lemma OnlyEntry(g: Graph)
    requires WellFormed(g) && g.succ[g.entry] == []
    ensures IsSearch(g, {}, [g.entry]) && Retreating(g, [g.entry], []) && BackEdgesOf(g) == []
  {
    hide Reach;
    forall u {:trigger Live(g, u)}
      ensures u in [g.entry] <==> Live(g, u)
    {
      if Live(g, u) { ClosedReach(EdgesOf(g), {g.entry}, g.entry, u); }
      ReachRefl(EdgesOf(g), g.entry);
    }
    ReachRefl({}, g.entry);
  }

  // ---------------------------------------------------------------- the steps of the walk

  /** Where the loop is, and what it still has to find. */
  ghost predicate Walking(g: Graph, visited: set<Vertex>, stack: seq<Frame>, done: seq<Vertex>, tree: Edges,
                          result: seq<(Vertex, Vertex)>) {
    && Searching(g, visited, stack, done, result) && g.entry in visited
    && SearchTree(g, visited, stack, done, tree) && AllLeadBack(stack, done, tree, result)
    && FramesFit(g, stack) && visited <= g.succ.Keys && result + Continue(g, stack, visited) == BackEdgesOf(g)
  }

  lemma WalkStarts(g: Graph)
    requires WellFormed(g)
    ensures Walking(g, {g.entry}, [(g.entry, 0)], [], {}, [])
    ensures forall v :: OnStack([(g.entry, 0)], v) <==> v == g.entry
  {
    hide Searching, SearchTree, AllLeadBack, Continue, BackEdgesOf, OnStack;
    SearchStarts(g);
    TreeStarts(g);
    ContinueStart(g);
  }

  lemma WalkFacts(g: Graph, visited: set<Vertex>, stack: seq<Frame>, done: seq<Vertex>, tree: Edges,
                  result: seq<(Vertex, Vertex)>)
    requires Walking(g, visited, stack, done, tree, result) && stack != []
    ensures stack[|stack| - 1].0 in g.succ && stack[|stack| - 1].1 <= |g.succ[stack[|stack| - 1].0]|
    ensures FramesFit(g, stack)
  {
    hide Searching, SearchTree, AllLeadBack, Continue, BackEdgesOf, OnStack;
  }

  /** A successor that has been visited. */
  lemma WalkOver(g: Graph, visited: set<Vertex>, stack: seq<Frame>, done: seq<Vertex>, tree: Edges,
                 result: seq<(Vertex, Vertex)>)
    requires Walking(g, visited, stack, done, tree, result) && HasNext(g, stack) && Next(g, stack) in visited
    ensures var found := (stack[|stack| - 1].0, Next(g, stack));
            Walking(g, visited, Advanced(stack), done, tree,
                    if OnStack(stack, Next(g, stack)) then result + [found] else result)
  {
    hide Searching, SearchTree, AllLeadBack, Continue, BackEdgesOf, OnStack;
    var b := Next(g, stack);
    ContinueOver(g, stack, visited);
    TreeAdvanced(g, visited, stack, done, tree, result);
    if OnStack(stack, b) {
      AdvancedOnStack(stack);
      BackLeadsBack(g, visited, Advanced(stack), done, tree, result, b);
      BackEdge(g, visited, stack, done, result);
      Grouped(result, [(stack[|stack| - 1].0, b)], Continue(g, Advanced(stack), visited));
    } else {
      OldEdge(g, visited, stack, done, result);
      assert [] + Continue(g, Advanced(stack), visited) == Continue(g, Advanced(stack), visited);
    }
  }

  /** A new successor. */
  lemma WalkDown(g: Graph, visited: set<Vertex>, stack: seq<Frame>, done: seq<Vertex>, tree: Edges,
                 result: seq<(Vertex, Vertex)>)
    requires Walking(g, visited, stack, done, tree, result) && HasNext(g, stack) && Next(g, stack) !in visited
    ensures var b := Next(g, stack);
            b in g.succ && Walking(g, visited + {b}, Advanced(stack) + [(b, 0)], done,
                                   tree + {(stack[|stack| - 1].0, b)}, result)
  {
    hide Searching, SearchTree, AllLeadBack, Continue, BackEdgesOf, OnStack;
    GoDown(g, visited, stack, done, result);
    ContinueDown(g, stack, visited);
    VisitedParts(g, visited, stack, done, result);
    TreeAdvanced(g, visited, stack, done, tree, result);
    TreeDown(g, visited, Advanced(stack), done, tree, result, Next(g, stack));
  }

  /** No successor is left. */
  lemma WalkUp(g: Graph, visited: set<Vertex>, stack: seq<Frame>, done: seq<Vertex>, tree: Edges,
               result: seq<(Vertex, Vertex)>)
    requires Walking(g, visited, stack, done, tree, result) && stack != [] && stack[|stack| - 1].0 in g.succ
    requires stack[|stack| - 1].1 == |g.succ[stack[|stack| - 1].0]|
    ensures Walking(g, visited, stack[..|stack| - 1], done + [stack[|stack| - 1].0], tree, result)
    ensures !OnStack(stack[..|stack| - 1], stack[|stack| - 1].0)
  {
    hide Searching, SearchTree, AllLeadBack, Continue, BackEdgesOf, OnStack;
    GoUp(g, visited, stack, done, result);
    SearchFacts(g, visited, stack, done, result);
    VisitedParts(g, visited, stack, done, result);
    TreeUp(g, visited, stack, done, tree, result);
    ContinueUp(g, stack, visited);
  }

  lemma WalkEnds(g: Graph, visited: set<Vertex>, done: seq<Vertex>, tree: Edges, result: seq<(Vertex, Vertex)>)
    requires WellFormed(g) && Walking(g, visited, [], done, tree, result)
    ensures result == BackEdgesOf(g)
    ensures IsSearch(g, tree, done) && Retreating(g, done, result) && ToAncestors(tree, result)
    ensures AllClose(g, result)
    ensures forall u, v {:trigger Edge(Forward(g, result), u, v)} ::
              Live(g, u) && Edge(Forward(g, result), u, v) ==> !Reach(Forward(g, result), v, u)
  {
    hide Searching, SearchTree, AllLeadBack, IsSearch, Retreating, ToAncestors, Continue, BackEdgesOf, Reach, Forward,
         AllClose;
    ContinueEnd(g, visited);
    SearchDone(g, visited, done, result);
    SearchIsDone(g, visited, done, tree, result);
  }

  lemma VisitedParts(g: Graph, visited: set<Vertex>, stack: seq<Frame>, done: seq<Vertex>,
                     result: seq<(Vertex, Vertex)>)
    requires Searching(g, visited, stack, done, result) && stack != []
    ensures StackPath(g, stack) && Visited(visited, done, stack)
    ensures Visited(visited, done, Advanced(stack))
  {
    hide Reach, StackPath, Descends, FramesDone, AllClose, OnStack;
    AdvancedOnStack(stack);
  }

  lemma SearchFacts(g: Graph, visited: set<Vertex>, stack: seq<Frame>, done: seq<Vertex>, result: seq<(Vertex, Vertex)>)
    requires Searching(g, visited, stack, done, result) && stack != []
    ensures stack[|stack| - 1].0 in g.succ && stack[|stack| - 1].1 <= |g.succ[stack[|stack| - 1].0]|
    ensures forall v :: OnStack(stack, v) ==> v in visited
    ensures !OnStack(stack[..|stack| - 1], stack[|stack| - 1].0)
  {
  }

  // ---------------------------------------------------------------- FindFunctionBackedges

  /** The walk with a stack finds what the recursive one does, in the same order.  For the tree and the finish
      order of a depth-first search of the live blocks, an edge is in the result exactly if its target does not
      come before its source, and then the target is an ancestor of the source.  So each of them closes a cycle,
      and without them no cycle is left among the live blocks. */
  method FindFunctionBackedges(g: Graph)
    returns (result: seq<(Vertex, Vertex)>, ghost tree: Edges, ghost order: seq<Vertex>)
    requires WellFormed(g)
    ensures result == BackEdgesOf(g)
    ensures IsSearch(g, tree, order) && Retreating(g, order, result) && ToAncestors(tree, result)
    ensures forall u, v {:trigger (u, v) in result} :: (u, v) in result ==>
              Edge(EdgesOf(g), u, v) && Reach(EdgesOf(g), v, u) && Live(g, u)
    ensures forall u, v {:trigger Edge(Forward(g, result), u, v)} ::
              Live(g, u) && Edge(Forward(g, result), u, v) ==> !Reach(Forward(g, result), v, u)
  {
    hide Walking, Reach, Forward, IsSearch, Retreating, BackEdgesOf, OnStack;
    result, tree, order := [], {}, [g.entry];
    if g.succ[g.entry] == [] {
      EntryOnly(g);
      OnlyEntry(g);
      return;
    }
    order := [];
    var visited := {g.entry};
    var stack: seq<Frame> := [(g.entry, 0)];
    var inStack := {g.entry};
    WalkStarts(g);
    while stack != []
      invariant Walking(g, visited, stack, order, tree, result)
      invariant forall v :: v in inStack <==> OnStack(stack, v)
      decreases |g.succ.Keys - visited|, |stack|
    {
      WalkFacts(g, visited, stack, order, tree, result);
      var parent := stack[|stack| - 1].0;
      var foundNew := false;
      var b := parent;
      ghost var height, seen := |stack|, visited;
      while stack[|stack| - 1].1 < |g.succ[parent]|
        invariant |stack| == height && stack[|stack| - 1].0 == parent && parent in g.succ && visited == seen
        invariant Walking(g, visited, stack, order, tree, result) && stack[|stack| - 1].1 <= |g.succ[parent]|
        invariant forall v :: v in inStack <==> OnStack(stack, v)
        invariant !foundNew
        decreases |g.succ[parent]| - stack[|stack| - 1].1
      {
        b := g.succ[parent][stack[|stack| - 1].1];
        WalkFacts(g, visited, stack, order, tree, result);
        AdvancedOnStack(stack);
        if b !in visited {
          WalkDown(g, visited, stack, order, tree, result);
          stack := Advanced(stack);
          foundNew := true;
          break;
        }
        WalkOver(g, visited, stack, order, tree, result);
        if b in inStack {
          result := result + [(parent, b)];
        }
        stack := Advanced(stack);
      }
      if foundNew {
        PushedOnStack(stack, b);
        FewerLeft(g.succ.Keys, visited, visited + {b}, b);
        visited := visited + {b};
        inStack := inStack + {b};
        stack := stack + [(b, 0)];
        tree := tree + {(parent, b)};
      } else {
        WalkUp(g, visited, stack, order, tree, result);
        PoppedOnStack(stack);
        inStack := inStack - {stack[|stack| - 1].0};
        order := order + [stack[|stack| - 1].0];
        stack := stack[..|stack| - 1];
      }
    }
    WalkEnds(g, visited, order, tree, result);
  }
}
