// The two stacks that hold a suspended walk, and how each step moves them.
module WalkStacks {
  import opened Digraph
  import opened TarjanWalk

  datatype Option<+T> = None | Some(value: T)

  /** For each function, its callee slots in order; a slot is emptied when its edge is removed. */
  type CalleeLists = map<Vertex, seq<Option<Vertex>>>

  /** e has exactly the edges that the slots list, all between listed functions. */
  ghost predicate Lists(cal: CalleeLists, e: Edges) {
    && (forall u, v :: Edge(e, u, v) ==> u in cal && Some(v) in cal[u] && v in cal)
    && (forall u, k :: u in cal && 0 <= k < |cal[u]| && cal[u][k].Some? ==> Edge(e, u, cal[u][k].value))
  }

  /** A path node with the position of the next callee slot to look at. */
  datatype Frame = Frame(node: Vertex, it: nat)

  ghost predicate OnStack(stack: seq<Frame>, v: Vertex) {
    exists i :: 0 <= i < |stack| && stack[i].node == v
  }

  ghost predicate ScannedUpTo(cal: CalleeLists, w: Walk, f: Frame) {
    && f.node in cal && f.it <= |cal[f.node]|
    && forall j :: 0 <= j < f.it && cal[f.node][j].Some? ==> Edge(w.scan, f.node, cal[f.node][j].value)
  }

  ghost predicate FramesFit(cal: CalleeLists, stack: seq<Frame>, w: Walk) {
    forall i :: 0 <= i < |stack| ==> stack[i].node in w.path && ScannedUpTo(cal, w, stack[i])
  }

  ghost predicate Covers(stack: seq<Frame>, path: set<Vertex>) {
    forall v {:trigger OnStack(stack, v)} :: v in path ==> OnStack(stack, v)
  }

  ghost predicate Ordered(e: Edges, stack: seq<Frame>, w: Walk) {
    && (forall i, j :: 0 <= i < j < |stack| ==> w.D(stack[i].node) < w.D(stack[j].node))
    && (forall i, j :: 0 <= i && j == i + 1 && j < |stack| ==> Edge(e, stack[i].node, stack[j].node))
    && (forall v :: v in w.Active() ==> |stack| > 0 && w.D(stack[0].node) <= w.D(v))
  }

  ghost predicate StackFits(cal: CalleeLists, e: Edges, stack: seq<Frame>, w: Walk) {
    FramesFit(cal, stack, w) && Covers(stack, w.path) && Ordered(e, stack, w)
  }

  /** Pending nodes sit in finish order, so those numbered after a path node are a suffix. */
  ghost predicate Nested(pending: seq<Vertex>, w: Walk) {
    forall u, k, l :: u in w.path && 0 <= k < l < |pending| && w.D(u) < w.D(pending[k]) ==> w.D(u) < w.D(pending[l])
  }

  ghost predicate PendingFits(pending: seq<Vertex>, w: Walk) {
    w.pend == Elements(pending) && Distinct(pending) && Nested(pending, w)
  }

  ghost predicate Walking(cal: CalleeLists, e: Edges, formed: set<Vertex>,
                          stack: seq<Frame>, pending: seq<Vertex>, w: Walk) {
    && w.Inv(e, formed) && StackFits(cal, e, stack, w) && PendingFits(pending, w)
  }

  lemma TopOfStack(cal: CalleeLists, e: Edges, stack: seq<Frame>, w: Walk)
    requires StackFits(cal, e, stack, w) && |stack| > 0
    ensures w.IsTop(stack[|stack| - 1].node)
  {
    forall v | v in w.path
      ensures w.D(v) <= w.D(stack[|stack| - 1].node)
    {
      assert OnStack(stack, v);
    }
  }

  // ---------------------------------------------------------------- descending

  lemma DescendFrames(cal: CalleeLists, stack: seq<Frame>, w: Walk, n: Vertex, it: nat, saved: nat, x: Vertex)
    requires FramesFit(cal, stack + [Frame(n, it)], w) && saved <= it && x in cal
    ensures FramesFit(cal, stack + [Frame(n, saved)] + [Frame(x, 0)], Descend(w, x))
  {
    var s := stack + [Frame(n, it)];
    var s' := stack + [Frame(n, saved)] + [Frame(x, 0)];
    forall i | 0 <= i < |s'|
      ensures s'[i].node in Descend(w, x).path && ScannedUpTo(cal, Descend(w, x), s'[i])
    {
      if i < |stack| {
        assert s'[i] == s[i];
      } else if i == |stack| {
        assert s[i] == Frame(n, it) && s'[i] == Frame(n, saved);
      }
    }
  }

  lemma DescendCovers(stack: seq<Frame>, path: set<Vertex>, n: Vertex, it: nat, saved: nat, x: Vertex)
    requires Covers(stack + [Frame(n, it)], path)
    ensures Covers(stack + [Frame(n, saved)] + [Frame(x, 0)], path + {x})
  {
    var s := stack + [Frame(n, it)];
    var s' := stack + [Frame(n, saved)] + [Frame(x, 0)];
    forall v | v in path + {x}
      ensures OnStack(s', v)
    {
      if v == x {
        assert s'[|stack| + 1].node == x;
      } else {
        assert OnStack(s, v);
        var i :| 0 <= i < |s| && s[i].node == v;
        assert s'[i].node == v;
      }
    }
  }

  lemma DescendOrdered(e: Edges, formed: set<Vertex>, stack: seq<Frame>, w: Walk, n: Vertex, it: nat, saved: nat,
                       x: Vertex)
    requires Ordered(e, stack + [Frame(n, it)], w) && w.Numbered(formed)
    requires forall i :: 0 <= i < |stack| ==> stack[i].node in w.path
    requires n in w.path && x !in w.Active() && Edge(e, n, x)
    ensures Ordered(e, stack + [Frame(n, saved)] + [Frame(x, 0)], Descend(w, x))
  {
    var s := stack + [Frame(n, it)];
    var s' := stack + [Frame(n, saved)] + [Frame(x, 0)];
    assert SameNumbers(w, Descend(w, x), w.Active());
    assert s'[|stack| + 1].node == x;
    assert forall i :: 0 <= i < |s| ==> s'[i].node == s[i].node && s[i].node in w.path;
  }

  lemma DescendFits(cal: CalleeLists, e: Edges, formed: set<Vertex>, stack: seq<Frame>, pending: seq<Vertex>,
                    w: Walk, n: Vertex, it: nat, saved: nat, x: Vertex)
    requires Walking(cal, e, formed, stack + [Frame(n, it)], pending, w)
    requires Edge(e, n, x) && saved <= it && x in cal
    requires x !in formed && x !in w.Active() && 1 <= w.next
    ensures Walking(cal, e, formed, stack + [Frame(n, saved)] + [Frame(x, 0)], pending, Descend(w, x))
  {
    var s := stack + [Frame(n, it)];
    assert s[|stack|] == Frame(n, it);
    TopOfStack(cal, e, s, w);
    assert forall i :: 0 <= i < |stack| ==> s[i] == stack[i];
    DescendFrames(cal, stack, w, n, it, saved, x);
    DescendCovers(stack, w.path, n, it, saved, x);
    DescendOrdered(e, formed, stack, w, n, it, saved, x);
    assert SameNumbers(w, Descend(w, x), w.Active());
    assert PendingFits(pending, Descend(w, x));
    DescendInv(e, formed, w, n, x);
  }

  // ---------------------------------------------------------------- scanning and leaving

  ghost predicate SameNodes(s: seq<Frame>, s': seq<Frame>) {
    |s| == |s'| && forall i :: 0 <= i < |s| ==> s'[i].node == s[i].node
  }

  lemma CoversSameNodes(s: seq<Frame>, s': seq<Frame>, path: set<Vertex>)
    requires Covers(s, path) && SameNodes(s, s')
    ensures Covers(s', path)
  {
    forall v | v in path
      ensures OnStack(s', v)
    {
      assert OnStack(s, v);
      var i :| 0 <= i < |s| && s[i].node == v;
      assert s'[i].node == v;
    }
  }

  lemma OrderedSameNodes(e: Edges, s: seq<Frame>, s': seq<Frame>, w: Walk, w': Walk)
    requires Ordered(e, s, w) && SameNodes(s, s')
    requires w'.Active() == w.Active() && w'.dfs == w.dfs
    ensures Ordered(e, s', w')
  {
  }

  lemma AdvanceFrames(cal: CalleeLists, stack: seq<Frame>, w: Walk, w': Walk, n: Vertex, it: nat)
    requires FramesFit(cal, stack + [Frame(n, it)], w)
    requires n in cal && it < |cal[n]| && w.scan <= w'.scan && w'.path == w.path
    requires cal[n][it].Some? ==> Edge(w'.scan, n, cal[n][it].value)
    ensures FramesFit(cal, stack + [Frame(n, it + 1)], w')
  {
    var s := stack + [Frame(n, it)];
    var s' := stack + [Frame(n, it + 1)];
    assert forall u, v :: Edge(w.scan, u, v) ==> Edge(w'.scan, u, v);
    forall i | 0 <= i < |s'|
      ensures s'[i].node in w'.path && ScannedUpTo(cal, w', s'[i])
    {
      assert s[i].node == s'[i].node && ScannedUpTo(cal, w, s[i]);
    }
  }

  /** Moving the end of the path to its next slot, after the slot's edge has been scanned. */
  lemma AdvanceFits(cal: CalleeLists, e: Edges, formed: set<Vertex>, stack: seq<Frame>, pending: seq<Vertex>,
                    w: Walk, w': Walk, n: Vertex, it: nat)
    requires Walking(cal, e, formed, stack + [Frame(n, it)], pending, w) && w'.Inv(e, formed)
    requires n in cal && it < |cal[n]| && w.scan <= w'.scan
    requires cal[n][it].Some? ==> Edge(w'.scan, n, cal[n][it].value)
    requires w'.path == w.path && w'.pend == w.pend && w'.dfs == w.dfs
    ensures Walking(cal, e, formed, stack + [Frame(n, it + 1)], pending, w')
  {
    AdvanceFrames(cal, stack, w, w', n, it);
    CoversSameNodes(stack + [Frame(n, it)], stack + [Frame(n, it + 1)], w.path);
    OrderedSameNodes(e, stack + [Frame(n, it)], stack + [Frame(n, it + 1)], w, w');
  }

  lemma AllScanned(cal: CalleeLists, e: Edges, w: Walk, n: Vertex)
    requires Lists(cal, e) && n in cal && ScannedUpTo(cal, w, Frame(n, |cal[n]|))
    ensures forall c :: Edge(e, n, c) ==> Edge(w.scan, n, c)
  {
    forall c | Edge(e, n, c)
      ensures Edge(w.scan, n, c)
    {
      var j :| 0 <= j < |cal[n]| && cal[n][j] == Some(c);
    }
  }

  lemma PopFrames(cal: CalleeLists, e: Edges, stack: seq<Frame>, w: Walk, w': Walk, n: Vertex, it: nat)
    requires FramesFit(cal, stack + [Frame(n, it)], w) && Covers(stack + [Frame(n, it)], w.path)
    requires Ordered(e, stack + [Frame(n, it)], w)
    requires w'.path == w.path - {n} && w'.scan == w.scan
    ensures FramesFit(cal, stack, w') && Covers(stack, w'.path)
  {
    var s := stack + [Frame(n, it)];
    assert s[|stack|] == Frame(n, it);
    forall i | 0 <= i < |stack|
      ensures stack[i].node in w'.path && ScannedUpTo(cal, w', stack[i])
    {
      assert s[i] == stack[i];
      assert ScannedUpTo(cal, w, s[i]);
    }
    forall v | v in w'.path
      ensures OnStack(stack, v)
    {
      assert OnStack(s, v);
      var i :| 0 <= i < |s| && s[i].node == v;
      assert stack[i].node == v;
    }
  }

  lemma PopOrdered(e: Edges, stack: seq<Frame>, w: Walk, w': Walk, n: Vertex, it: nat)
    requires Ordered(e, stack + [Frame(n, it)], w)
    requires w'.Active() <= w.Active()
    requires forall v :: v in w'.Active() ==> w'.D(v) == w.D(v)
    requires forall i :: 0 <= i < |stack| ==> stack[i].node in w'.Active()
    requires stack == [] ==> w'.Active() == {}
    ensures Ordered(e, stack, w')
  {
    var s := stack + [Frame(n, it)];
    assert forall i :: 0 <= i < |stack| ==> stack[i] == s[i];
  }

  lemma PendNested(pending: seq<Vertex>, w: Walk, n: Vertex)
    requires Nested(pending, w) && w.IsTop(n)
    requires forall u :: u in w.path && w.D(u) == w.D(n) ==> u == n
    ensures Nested(pending + [n], Pend(w, n))
  {
    var q := pending + [n];
    var w' := Pend(w, n);
    forall u, k, l | u in w'.path && 0 <= k < l < |q| && w'.D(u) < w'.D(q[k])
      ensures w'.D(u) < w'.D(q[l])
    {
      assert q[k] == pending[k] && w.D(u) < w.D(pending[k]);
      if l == |pending| {
        assert w.D(u) <= w.D(n) && w.D(u) != w.D(n);
      } else {
        assert w.D(u) < w.D(pending[l]);
      }
    }
  }

  lemma PendAppended(formed: set<Vertex>, pending: seq<Vertex>, w: Walk, n: Vertex)
    requires PendingFits(pending, w) && w.Numbered(formed) && w.IsTop(n)
    ensures PendingFits(pending + [n], Pend(w, n))
  {
    PendNested(pending, w, n);
    assert Elements(pending + [n]) == Elements(pending) + {n};
    assert forall k :: 0 <= k < |pending| ==> pending[k] in Elements(pending);
  }

  lemma PendFits(cal: CalleeLists, e: Edges, formed: set<Vertex>, stack: seq<Frame>, pending: seq<Vertex>,
                 w: Walk, n: Vertex)
    requires n in cal && Walking(cal, e, formed, stack + [Frame(n, |cal[n]|)], pending, w)
    requires Lists(cal, e) && w.L(n) < w.D(n)
    ensures |stack| > 0 && Walking(cal, e, formed, stack, pending + [n], Pend(w, n))
  {
    var s := stack + [Frame(n, |cal[n]|)];
    var w' := Pend(w, n);
    assert s[|stack|] == Frame(n, |cal[n]|);
    assert forall i :: 0 <= i < |stack| ==> s[i] == stack[i];
    TopOfStack(cal, e, s, w);
    AllScanned(cal, e, w, n);
    assert |stack| > 0 by {
      assert w.LowIsReached(e, n);
      var y :| y in w.Active() && w.D(y) == w.L(n);
      assert w.D(s[0].node) <= w.D(y);
    }
    PopFrames(cal, e, stack, w, w', n, |cal[n]|);
    assert w'.Active() == w.Active() && w'.dfs == w.dfs;
    PopOrdered(e, stack, w, w', n, |cal[n]|);
    TopOfStack(cal, e, stack, w');
    PendAppended(formed, pending, w, n);
    PendInv(e, formed, w, n, stack[|stack| - 1].node);
  }

  // ---------------------------------------------------------------- forming a component

  /** The pending stack splits where the numbers pass that of n. */
  ghost predicate CutAt(pending: seq<Vertex>, w: Walk, n: Vertex, cut: nat) {
    && cut <= |pending|
    && (forall k :: 0 <= k < cut ==> w.D(pending[k]) <= w.D(n))
    && (forall k :: cut <= k < |pending| ==> w.D(pending[k]) > w.D(n))
  }

  lemma FindCut(pending: seq<Vertex>, w: Walk, n: Vertex) returns (cut: nat)
    requires PendingFits(pending, w) && n in w.path
    ensures CutAt(pending, w, n, cut)
  {
    cut := |pending|;
    while cut > 0 && w.D(pending[cut - 1]) > w.D(n)
      invariant cut <= |pending|
      invariant forall k :: cut <= k < |pending| ==> w.D(pending[k]) > w.D(n)
    {
      cut := cut - 1;
    }
  }

  /** Popping while the number is larger takes the whole component and nothing else. */
  lemma PoppedIsComponent(pending: seq<Vertex>, w: Walk, n: Vertex, cut: nat)
    requires w.pend == Elements(pending) && CutAt(pending, w, n, cut)
    ensures Component(w, n) == {n} + Elements(pending[cut..])
  {
    var tail := pending[cut..];
    forall v
      ensures v in Component(w, n) <==> v in {n} + Elements(tail)
    {
      if v in tail {
        var k :| 0 <= k < |tail| && tail[k] == v;
        assert pending[cut + k] == v;
      }
      if v in w.pend {
        var k :| 0 <= k < |pending| && pending[k] == v;
        if cut <= k { assert tail[k - cut] == v; }
      }
    }
  }

  lemma RestNested(pending: seq<Vertex>, w: Walk, w': Walk, cut: nat)
    requires Nested(pending, w) && cut <= |pending| && w'.path <= w.path
    requires forall v :: v in w'.path ==> w'.D(v) == w.D(v)
    requires forall k :: 0 <= k < cut ==> w'.D(pending[k]) == w.D(pending[k])
    ensures Nested(pending[..cut], w')
  {
    var rest := pending[..cut];
    forall u, k, l | u in w'.path && 0 <= k < l < cut && w'.D(u) < w'.D(rest[k])
      ensures w'.D(u) < w'.D(rest[l])
    {
      assert rest[k] == pending[k] && rest[l] == pending[l];
    }
  }

  lemma RestElements(pending: seq<Vertex>, w: Walk, n: Vertex, cut: nat)
    requires CutAt(pending, w, n, cut) && w.pend == Elements(pending) && n !in w.pend
    ensures w.pend - Component(w, n) == Elements(pending[..cut])
  {
    var rest := pending[..cut];
    forall v
      ensures v in w.pend - Component(w, n) <==> v in rest
    {
      if v in w.pend - Component(w, n) {
        var k :| 0 <= k < |pending| && pending[k] == v;
        assert rest[k] == v;
      }
      if v in rest {
        var k :| 0 <= k < |rest| && rest[k] == v;
        assert pending[k] == v;
      }
    }
  }

  lemma RestFits(formed: set<Vertex>, pending: seq<Vertex>, w: Walk, n: Vertex, cut: nat, dfs: Numbers, low: Numbers)
    requires PendingFits(pending, w) && w.IsTop(n) && w.Numbered(formed) && KeepsRest(w, n, dfs, low)
    requires CutAt(pending, w, n, cut)
    ensures PendingFits(pending[..cut], Form(w, n, dfs, low))
  {
    var w' := Form(w, n, dfs, low);
    RestElements(pending, w, n, cut);
    forall k | 0 <= k < cut
      ensures w'.D(pending[k]) == w.D(pending[k])
    {
      assert pending[k] in Elements(pending);
    }
    RestNested(pending, w, w', cut);
  }

  lemma FormFits(cal: CalleeLists, e: Edges, formed: set<Vertex>, stack: seq<Frame>, pending: seq<Vertex>,
                 w: Walk, n: Vertex, cut: nat, dfs: Numbers, low: Numbers)
    requires n in cal && Walking(cal, e, formed, stack + [Frame(n, |cal[n]|)], pending, w)
    requires IsRoot(e, formed, w, n) && KeepsRest(w, n, dfs, low) && CutAt(pending, w, n, cut)
    ensures Walking(cal, e, formed + Component(w, n), stack, pending[..cut], Form(w, n, dfs, low))
  {
    var s := stack + [Frame(n, |cal[n]|)];
    var w' := Form(w, n, dfs, low);
    assert s[|stack|] == Frame(n, |cal[n]|);
    assert forall i :: 0 <= i < |stack| ==> s[i] == stack[i];
    RestFits(formed, pending, w, n, cut, dfs, low);
    PopFrames(cal, e, stack, w, w', n, |cal[n]|);
    assert w'.Active() == w.Active() - Component(w, n);
    if stack == [] {
      forall v
        ensures v !in w'.Active()
      {
        assert s[0].node == n && (v in w.Active() ==> w.D(n) <= w.D(v));
        assert v in w.path ==> OnStack(s, v);
      }
      assert w'.Active() == {};
    }
    PopOrdered(e, stack, w, w', n, |cal[n]|);
    FormInv(e, formed, w, n, dfs, low);
  }

  // ---------------------------------------------------------------- with the node fields

  /** The fields of every node: formed nodes carry -1, unvisited ones 0. */
  ghost predicate NodeFields(cal: CalleeLists, formed: set<Vertex>, w: Walk) {
    && w.dfs.Keys == w.low.Keys == cal.Keys && formed <= cal.Keys && w.Active() <= cal.Keys
    && (forall v :: v in formed ==> w.D(v) == w.L(v) == -1)
    && (forall v :: v in cal && v !in formed && v !in w.Active() ==> w.D(v) == 0)
  }

  /** The walk together with the fields of every node. */
  ghost predicate Exploring(cal: CalleeLists, e: Edges, formed: set<Vertex>,
                            stack: seq<Frame>, pending: seq<Vertex>, w: Walk) {
    Lists(cal, e) && NodeFields(cal, formed, w) && Walking(cal, e, formed, stack, pending, w)
  }

  lemma TopInPath(cal: CalleeLists, e: Edges, formed: set<Vertex>, stack: seq<Frame>, pending: seq<Vertex>,
                  w: Walk, n: Vertex, it: nat)
    requires Exploring(cal, e, formed, stack + [Frame(n, it)], pending, w)
    ensures n in w.path && n in cal && it <= |cal[n]| && w.IsTop(n) && 1 <= w.L(n) <= w.D(n) && w.D(n) < w.next
  {
    var s := stack + [Frame(n, it)];
    assert s[|stack|] == Frame(n, it);
    TopOfStack(cal, e, s, w);
  }

  lemma NothingWalking(cal: CalleeLists, e: Edges, formed: set<Vertex>, pending: seq<Vertex>, w: Walk)
    requires Exploring(cal, e, formed, [], pending, w)
    ensures w.Active() == {} && w.path == {} && w.pend == {} && Elements(pending) == {}
  {
    assert forall v :: v !in w.Active();
    assert w.Active() == {};
    assert w.path <= w.Active() && w.pend <= w.Active();
  }

  lemma StartFits(cal: CalleeLists, e: Edges, pending: seq<Vertex>, w: Walk, x: Vertex)
    requires w.path == {} && w.pend == {} && Elements(pending) == {} && x in cal
    ensures StackFits(cal, e, [] + [Frame(x, 0)], Descend(w, x)) && PendingFits(pending, Descend(w, x))
  {
    var s := [] + [Frame(x, 0)];
    assert s == [Frame(x, 0)] && s[0].node == x;
    assert OnStack(s, x);
    assert forall k :: 0 <= k < |pending| ==> pending[k] in Elements(pending);
  }

  lemma StartFields(cal: CalleeLists, formed: set<Vertex>, w: Walk, x: Vertex)
    requires NodeFields(cal, formed, w) && w.path == {} && w.pend == {} && x in cal && x !in formed
    ensures NodeFields(cal, formed, Descend(w, x)) && Descend(w, x).Active() == {x}
  {
  }

  /** Starting a walk at an unvisited node when nothing is suspended; numbers restart at 1. */
  lemma StartStep(cal: CalleeLists, e: Edges, formed: set<Vertex>, pending: seq<Vertex>, w: Walk, x: Vertex)
    requires Exploring(cal, e, formed, [], pending, w) && x in cal && w.D(x) == 0
    ensures Exploring(cal, e, formed, [] + [Frame(x, 0)], pending, Descend(w.(next := 1), x))
    ensures Descend(w.(next := 1), x).Active() == {x} && w.Active() == {} && x !in formed
  {
    hide StackFits, PendingFits, Lists, Elements;
    NothingWalking(cal, e, formed, pending, w);
    var w1 := w.(next := 1);
    StartInv(e, formed, w, x);
    StartFits(cal, e, pending, w1, x);
    StartFields(cal, formed, w1, x);
  }

  lemma StartInv(e: Edges, formed: set<Vertex>, w: Walk, x: Vertex)
    requires w.Inv(e, formed) && w.path == {} && w.pend == {} && x !in formed
    ensures Descend(w.(next := 1), x).Inv(e, formed)
  {
    var w1 := w.(next := 1);
    assert w1.Active() == {} && w1.Inv(e, formed);
    DescendInv(e, formed, w1, x, x);
  }

  lemma VisitStep(cal: CalleeLists, e: Edges, formed: set<Vertex>, stack: seq<Frame>, pending: seq<Vertex>,
                  w: Walk, n: Vertex, it: nat, saved: nat, x: Vertex)
    requires Exploring(cal, e, formed, stack + [Frame(n, it)], pending, w)
    requires n in cal && saved <= it < |cal[n]| && cal[n][it] == Some(x) && w.D(x) == 0
    ensures Exploring(cal, e, formed, stack + [Frame(n, saved)] + [Frame(x, 0)], pending, Descend(w, x))
    ensures x !in formed && x !in w.Active() && x in cal && Edge(e, n, x)
    ensures Descend(w, x).Active() == w.Active() + {x}
  {
    TopInPath(cal, e, formed, stack, pending, w, n, it);
    DescendFits(cal, e, formed, stack, pending, w, n, it, saved, x);
  }

  lemma ScanStep(cal: CalleeLists, e: Edges, formed: set<Vertex>, stack: seq<Frame>, pending: seq<Vertex>,
                 w: Walk, n: Vertex, it: nat, x: Vertex)
    requires Exploring(cal, e, formed, stack + [Frame(n, it)], pending, w)
    requires n in cal && it < |cal[n]| && cal[n][it] == Some(x) && w.D(x) != 0
    ensures Exploring(cal, e, formed, stack + [Frame(n, it + 1)], pending, Scan(w, n, x))
  {
    TopInPath(cal, e, formed, stack, pending, w, n, it);
    ScanInv(e, formed, w, n, x);
    AdvanceFits(cal, e, formed, stack, pending, w, Scan(w, n, x), n, it);
  }

  lemma SkipStep(cal: CalleeLists, e: Edges, formed: set<Vertex>, stack: seq<Frame>, pending: seq<Vertex>,
                 w: Walk, n: Vertex, it: nat)
    requires Exploring(cal, e, formed, stack + [Frame(n, it)], pending, w)
    requires n in cal && it < |cal[n]| && cal[n][it] == None
    ensures Exploring(cal, e, formed, stack + [Frame(n, it + 1)], pending, w)
  {
    AdvanceFits(cal, e, formed, stack, pending, w, w, n, it);
  }

  lemma PendStep(cal: CalleeLists, e: Edges, formed: set<Vertex>, stack: seq<Frame>, pending: seq<Vertex>,
                 w: Walk, n: Vertex)
    requires n in cal && Exploring(cal, e, formed, stack + [Frame(n, |cal[n]|)], pending, w)
    requires w.L(n) != w.D(n)
    ensures |stack| > 0 && Exploring(cal, e, formed, stack, pending + [n], Pend(w, n))
    ensures Pend(w, n).Active() == w.Active()
  {
    TopInPath(cal, e, formed, stack, pending, w, n, |cal[n]|);
    PendFits(cal, e, formed, stack, pending, w, n);
    assert Pend(w, n).Active() == w.Active();
  }

  lemma RootOfWalk(cal: CalleeLists, e: Edges, formed: set<Vertex>, stack: seq<Frame>, pending: seq<Vertex>,
                   w: Walk, n: Vertex)
    requires n in cal && Exploring(cal, e, formed, stack + [Frame(n, |cal[n]|)], pending, w)
    requires w.L(n) == w.D(n)
    ensures IsRoot(e, formed, w, n)
  {
    TopInPath(cal, e, formed, stack, pending, w, n, |cal[n]|);
    var s := stack + [Frame(n, |cal[n]|)];
    assert s[|stack|] == Frame(n, |cal[n]|);
    AllScanned(cal, e, w, n);
  }

  /** What forming the component of n needs to know, and that it is a component. */
  lemma RootCut(cal: CalleeLists, e: Edges, formed: set<Vertex>, stack: seq<Frame>, pending: seq<Vertex>,
                w: Walk, n: Vertex) returns (cut: nat)
    requires n in cal && Exploring(cal, e, formed, stack + [Frame(n, |cal[n]|)], pending, w)
    requires w.L(n) == w.D(n) && Closed(e, formed)
    ensures CutAt(pending, w, n, cut) && Component(w, n) == {n} + Elements(pending[cut..])
    ensures Component(w, n) <= w.Active() && Component(w, n) !! formed && n !in pending && Distinct(pending)
    ensures IsScc(e, Component(w, n)) && Closed(e, formed + Component(w, n))
  {
    RootOfWalk(cal, e, formed, stack, pending, w, n);
    cut := FindCut(pending, w, n);
    PoppedIsComponent(pending, w, n, cut);
    ComponentIsScc(e, formed, w, n);
    ComponentClosed(e, formed, w, n);
  }

  lemma FormActive(formed: set<Vertex>, w: Walk, n: Vertex, dfs: Numbers, low: Numbers)
    requires n in w.path && w.Numbered(formed)
    ensures Form(w, n, dfs, low).Active() == w.Active() - Component(w, n) && Component(w, n) <= w.Active()
  {
  }

  lemma FormFields(cal: CalleeLists, formed: set<Vertex>, w: Walk, n: Vertex, dfs: Numbers, low: Numbers)
    requires NodeFields(cal, formed, w) && w.Numbered(formed) && n in w.path
    requires dfs == Marked(w.dfs, Component(w, n))
    requires low == Marked(w.low, Component(w, n))
    ensures NodeFields(cal, formed + Component(w, n), Form(w, n, dfs, low))
    ensures KeepsRest(w, n, dfs, low)
    ensures Form(w, n, dfs, low).Active() == w.Active() - Component(w, n)
  {
    FormActive(formed, w, n, dfs, low);
    hide Component;
  }

  lemma FormStep(cal: CalleeLists, e: Edges, formed: set<Vertex>, stack: seq<Frame>, pending: seq<Vertex>,
                 w: Walk, n: Vertex, cut: nat, dfs: Numbers, low: Numbers)
    requires n in cal && Exploring(cal, e, formed, stack + [Frame(n, |cal[n]|)], pending, w)
    requires w.L(n) == w.D(n) && CutAt(pending, w, n, cut)
    requires dfs == Marked(w.dfs, Component(w, n))
    requires low == Marked(w.low, Component(w, n))
    ensures Exploring(cal, e, formed + Component(w, n), stack, pending[..cut], Form(w, n, dfs, low))
    ensures Form(w, n, dfs, low).Active() == w.Active() - Component(w, n)
  {
    TopInPath(cal, e, formed, stack, pending, w, n, |cal[n]|);
    RootOfWalk(cal, e, formed, stack, pending, w, n);
    FormFields(cal, formed, w, n, dfs, low);
    FormFits(cal, e, formed, stack, pending, w, n, cut, dfs, low);
  }
}
