// The depth-first walk over the blocks of a function, recursively, and what is left of it to do for a
// stack of blocks.
module DepthFirst {
  import opened Digraph
  import opened ControlFlow
  import opened Sets

  /** A block on the stack and how many of its successors have been looked at. */
  type Frame = (Vertex, nat)

  ghost predicate OnStack(stack: seq<Frame>, v: Vertex) {
    exists i :: 0 <= i < |stack| && stack[i].0 == v
  }

  lemma FewerLeft(all: set<Vertex>, visited: set<Vertex>, visited': set<Vertex>, b: Vertex)
    requires b in all && b !in visited && visited + {b} <= visited'
    ensures |all - visited'| < |all - visited|
  {
    SubsetSize(all - visited', all - visited);
  }

  ghost predicate InGraph(g: Graph, b: Vertex, k: nat, visited: set<Vertex>) {
    WellFormed(g) && b in g.succ && k <= |g.succ[b]| && visited <= g.succ.Keys
  }

  /** The blocks visited and the back edges found from successor k of b on: a new successor is walked
      through, and an edge back to the path that leads to b is reported. */
  ghost function Search(g: Graph, b: Vertex, k: nat, path: set<Vertex>, visited: set<Vertex>)
    : (r: (set<Vertex>, seq<(Vertex, Vertex)>))
    requires InGraph(g, b, k, visited)
    ensures visited <= r.0 <= g.succ.Keys
    decreases |g.succ.Keys - visited|, |g.succ[b]| - k
  {
    if k == |g.succ[b]| then (visited, [])
    else
      var s := g.succ[b][k];
      if s !in visited then
        FewerLeft(g.succ.Keys, visited, visited + {s}, s);
        var down := Search(g, s, 0, path + {s}, visited + {s});
        FewerLeft(g.succ.Keys, visited, down.0, s);
        var rest := Search(g, b, k + 1, path, down.0);
        (rest.0, down.1 + rest.1)
      else
        var rest := Search(g, b, k + 1, path, visited);
        (rest.0, (if s in path then [(b, s)] else []) + rest.1)
  }

  /** The back edges of a function. */
  ghost function BackEdgesOf(g: Graph): seq<(Vertex, Vertex)>
    requires WellFormed(g)
  {
    Search(g, g.entry, 0, {g.entry}, {g.entry}).1
  }

  // ---------------------------------------------------------------- with a stack

  ghost function Blocks(stack: seq<Frame>): (s: set<Vertex>)
    ensures forall v :: v in s <==> OnStack(stack, v)
  {
    set f | f in stack :: f.0
  }

  ghost predicate FramesFit(g: Graph, stack: seq<Frame>) {
    WellFormed(g) && forall i {:trigger stack[i]} :: 0 <= i < |stack| ==>
      stack[i].0 in g.succ && stack[i].1 <= |g.succ[stack[i].0]|
  }

  /** What is still to be found. */
  ghost function Continue(g: Graph, stack: seq<Frame>, visited: set<Vertex>): seq<(Vertex, Vertex)>
    requires FramesFit(g, stack) && visited <= g.succ.Keys
    decreases |stack|
  {
    if stack == [] then []
    else
      var f := stack[|stack| - 1];
      var top := Search(g, f.0, f.1, Blocks(stack), visited);
      top.1 + Continue(g, stack[..|stack| - 1], top.0)
  }

  /** The top block has looked at one more successor. */
  function Advanced(stack: seq<Frame>): seq<Frame>
    requires stack != []
  {
    stack[|stack| - 1 := (stack[|stack| - 1].0, stack[|stack| - 1].1 + 1)]
  }

  lemma AdvancedOnStack(stack: seq<Frame>)
    requires stack != []
    ensures forall v :: OnStack(Advanced(stack), v) <==> OnStack(stack, v)
  {
    forall v | OnStack(stack, v)
      ensures OnStack(Advanced(stack), v)
    {
      var i :| 0 <= i < |stack| && stack[i].0 == v;
      assert Advanced(stack)[i].0 == v;
    }
    forall v | OnStack(Advanced(stack), v)
      ensures OnStack(stack, v)
    {
      var i :| 0 <= i < |stack| && Advanced(stack)[i].0 == v;
      assert stack[i].0 == v;
    }
  }

  lemma PushedOnStack(stack: seq<Frame>, b: Vertex)
    ensures forall v :: OnStack(stack + [(b, 0)], v) <==> OnStack(stack, v) || v == b
  {
    var s := stack + [(b, 0)];
    assert s[|stack|].0 == b;
    forall v | OnStack(stack, v)
      ensures OnStack(s, v)
    {
      var i :| 0 <= i < |stack| && stack[i].0 == v;
      assert s[i].0 == v;
    }
  }

  ghost predicate HasNext(g: Graph, stack: seq<Frame>) {
    FramesFit(g, stack) && stack != [] && stack[|stack| - 1].1 < |g.succ[stack[|stack| - 1].0]|
  }

  function Next(g: Graph, stack: seq<Frame>): Vertex
    requires HasNext(g, stack)
  {
    g.succ[stack[|stack| - 1].0][stack[|stack| - 1].1]
  }

  lemma SearchOver(g: Graph, b: Vertex, k: nat, path: set<Vertex>, visited: set<Vertex>)
    requires InGraph(g, b, k, visited) && k < |g.succ[b]| && g.succ[b][k] in visited
    ensures var rest := Search(g, b, k + 1, path, visited);
            Search(g, b, k, path, visited)
            == (rest.0, (if g.succ[b][k] in path then [(b, g.succ[b][k])] else []) + rest.1)
  {
  }

  lemma ContinueTop(g: Graph, stack: seq<Frame>, visited: set<Vertex>)
    requires FramesFit(g, stack) && visited <= g.succ.Keys && stack != []
    ensures InGraph(g, stack[|stack| - 1].0, stack[|stack| - 1].1, visited) && FramesFit(g, stack[..|stack| - 1])
    ensures var f := stack[|stack| - 1];
            var top := Search(g, f.0, f.1, Blocks(stack), visited);
            Continue(g, stack, visited) == top.1 + Continue(g, stack[..|stack| - 1], top.0)
  {
    hide OnStack, WellFormed, Search;
  }

  /** A successor that has been visited: it is reported if it is on the stack. */
  lemma ContinueOver(g: Graph, stack: seq<Frame>, visited: set<Vertex>)
    requires HasNext(g, stack) && visited <= g.succ.Keys && Next(g, stack) in visited
    ensures FramesFit(g, Advanced(stack))
    ensures Continue(g, stack, visited)
            == (if OnStack(stack, Next(g, stack)) then [(stack[|stack| - 1].0, Next(g, stack))] else [])
               + Continue(g, Advanced(stack), visited)
  {
    hide OnStack, Search, Continue, Advanced, FramesFit, InGraph, WellFormed;
    var n := |stack| - 1;
    var s := Advanced(stack);
    AdvancedIs(g, stack);
    ContinueTop(g, stack, visited);
    ContinueTop(g, s, visited);
    SearchOver(g, stack[n].0, stack[n].1, Blocks(stack), visited);
    var rest := Search(g, stack[n].0, stack[n].1 + 1, Blocks(stack), visited);
    var found := if OnStack(stack, Next(g, stack)) then [(stack[n].0, Next(g, stack))] else [];
    Grouped(found, rest.1, Continue(g, s[..n], rest.0));
  }

  lemma AdvancedIs(g: Graph, stack: seq<Frame>)
    requires HasNext(g, stack)
    ensures var n, s := |stack| - 1, Advanced(stack);
            && FramesFit(g, s) && |s| == n + 1 && s[n] == (stack[n].0, stack[n].1 + 1) && s[..n] == stack[..n]
            && Blocks(s) == Blocks(stack)
  {
    hide OnStack, WellFormed;
    AdvancedOnStack(stack);
    assert Blocks(Advanced(stack)) == Blocks(stack);
  }

  lemma Grouped<T>(a: seq<T>, b: seq<T>, c: seq<T>)
    ensures (a + b) + c == a + (b + c)
  {
  }

  /** A new successor: the walk goes on there. */
  lemma ContinueDown(g: Graph, stack: seq<Frame>, visited: set<Vertex>)
    requires HasNext(g, stack) && visited <= g.succ.Keys && Next(g, stack) !in visited
    ensures Next(g, stack) in g.succ && FramesFit(g, Advanced(stack) + [(Next(g, stack), 0)])
    ensures Continue(g, stack, visited)
            == Continue(g, Advanced(stack) + [(Next(g, stack), 0)], visited + {Next(g, stack)})
  {
    hide OnStack;
    var n := |stack| - 1;
    var b := Next(g, stack);
    var f := stack[n];
    assert b in g.succ[f.0];
    var s := Advanced(stack);
    var pushed := s + [(b, 0)];
    AdvancedOnStack(stack);
    PushedOnStack(s, b);
    assert s[..n] == stack[..n] && Blocks(s) == Blocks(stack) && pushed[..n + 1] == s;
    assert Blocks(pushed) == Blocks(stack) + {b};
    var down := Search(g, b, 0, Blocks(stack) + {b}, visited + {b});
    var rest := Search(g, f.0, f.1 + 1, Blocks(stack), down.0);
    var below := Continue(g, stack[..n], rest.0);
    assert Continue(g, stack, visited) == (down.1 + rest.1) + below;
    assert Continue(g, s, down.0) == rest.1 + below;
    assert Continue(g, pushed, visited + {b}) == down.1 + (rest.1 + below);
  }

  /** A block whose successors have all been looked at. */
  lemma ContinueUp(g: Graph, stack: seq<Frame>, visited: set<Vertex>)
    requires FramesFit(g, stack) && visited <= g.succ.Keys && stack != []
    requires stack[|stack| - 1].1 == |g.succ[stack[|stack| - 1].0]|
    ensures FramesFit(g, stack[..|stack| - 1])
    ensures Continue(g, stack, visited) == Continue(g, stack[..|stack| - 1], visited)
  {
    hide OnStack, WellFormed;
  }

  lemma ContinueStart(g: Graph)
    requires WellFormed(g)
    ensures FramesFit(g, [(g.entry, 0)]) && Continue(g, [(g.entry, 0)], {g.entry}) == BackEdgesOf(g)
  {
    hide OnStack;
    var stack: seq<Frame> := [(g.entry, 0)];
    PushedOnStack([], g.entry);
    assert [] + [(g.entry, 0)] == stack;
    assert stack[..0] == [] && Blocks(stack) == {g.entry};
  }

  lemma ContinueEnd(g: Graph, visited: set<Vertex>)
    requires WellFormed(g) && visited <= g.succ.Keys
    ensures Continue(g, [], visited) == []
  {
  }
}
