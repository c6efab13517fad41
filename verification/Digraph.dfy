// Directed graphs as finite sets of edges, and what it means to reach a vertex.
// Shared by the call-graph and the control-flow-graph modules.
module Digraph {

  /** What a graph is over: functions for call graphs, basic blocks for control flow. */
  type Vertex(==, 0, !new)
  type Edges = set<(Vertex, Vertex)>

  predicate Edge(e: Edges, u: Vertex, v: Vertex) {
    (u, v) in e
  }

  function Elements(s: seq<Vertex>): set<Vertex> {
    set v | v in s
  }

  ghost predicate Distinct(s: seq<Vertex>) {
    forall i, j :: 0 <= i < j < |s| ==> s[i] != s[j]
  }

  /** The vertices that a path visits after its start. */
  datatype Path = Here | Via(next: Vertex, rest: Path)

  ghost predicate Follows(e: Edges, u: Vertex, p: Path, v: Vertex)
    decreases p
  {
    match p
    case Here => u == v
    case Via(x, rest) => Edge(e, u, x) && Follows(e, x, rest, v)
  }

  /** v can be reached from u along zero or more edges. */
  ghost predicate Reach(e: Edges, u: Vertex, v: Vertex) {
    exists p :: Follows(e, u, p, v)
  }

  ghost predicate Mutual(e: Edges, u: Vertex, v: Vertex) {
    Reach(e, u, v) && Reach(e, v, u)
  }

  /** No edge leaves s. */
  ghost predicate Closed(e: Edges, s: set<Vertex>) {
    forall u, v :: u in s && Edge(e, u, v) ==> v in s
  }

  /** s is a strongly connected component: one whole class of mutual reachability. */
  ghost predicate IsScc(e: Edges, s: set<Vertex>) {
    s != {} && forall u, v {:trigger Mutual(e, u, v)} :: u in s ==> (v in s <==> Mutual(e, u, v))
  }

  lemma ReachRefl(e: Edges, u: Vertex)
    ensures Reach(e, u, u)
  {
    assert Follows(e, u, Here, u);
  }

  lemma ReachStep(e: Edges, u: Vertex, x: Vertex, v: Vertex)
    requires Edge(e, u, x) && Reach(e, x, v)
    ensures Reach(e, u, v)
  {
    var p :| Follows(e, x, p, v);
    assert Follows(e, u, Via(x, p), v);
  }

  lemma ReachEdge(e: Edges, u: Vertex, v: Vertex)
    requires Edge(e, u, v)
    ensures Reach(e, u, v)
  {
    ReachRefl(e, v);
    ReachStep(e, u, v, v);
  }

  lemma {:induction false} FollowsThen(e: Edges, u: Vertex, p: Path, v: Vertex, w: Vertex)
    requires Follows(e, u, p, v) && Reach(e, v, w)
    ensures Reach(e, u, w)
    decreases p
  {
    match p
    case Here =>
    case Via(x, rest) =>
      FollowsThen(e, x, rest, v, w);
      ReachStep(e, u, x, w);
  }

  lemma ReachTrans(e: Edges, u: Vertex, v: Vertex, w: Vertex)
    requires Reach(e, u, v) && Reach(e, v, w)
    ensures Reach(e, u, w)
  {
    var p :| Follows(e, u, p, v);
    FollowsThen(e, u, p, v, w);
  }

  lemma {:induction false} ClosedPath(e: Edges, s: set<Vertex>, u: Vertex, p: Path, v: Vertex)
    requires Closed(e, s) && u in s && Follows(e, u, p, v)
    ensures v in s
    decreases p
  {
    match p
    case Here =>
    case Via(x, rest) => ClosedPath(e, s, x, rest, v);
  }

  lemma ClosedReach(e: Edges, s: set<Vertex>, u: Vertex, v: Vertex)
    requires Closed(e, s) && u in s && Reach(e, u, v)
    ensures v in s
  {
    var p :| Follows(e, u, p, v);
    ClosedPath(e, s, u, p, v);
  }

  lemma {:induction false} PathOutside(e: Edges, e': Edges, s: set<Vertex>, u: Vertex, p: Path, v: Vertex)
    requires Closed(e, s) && v !in s && Follows(e, u, p, v)
    requires forall x, y :: x !in s && Edge(e, x, y) ==> Edge(e', x, y)
    ensures Reach(e', u, v) && u !in s
    decreases p
  {
    match p
    case Here => ReachRefl(e', u);
    case Via(x, rest) =>
      PathOutside(e, e', s, x, rest, v);
      ReachStep(e', u, x, v);
  }

  /** A path that ends outside a closed set never enters it, so edges that start inside the
      set do not matter to it. */
  lemma ReachOutside(e: Edges, e': Edges, s: set<Vertex>, u: Vertex, v: Vertex)
    requires Closed(e, s) && v !in s && Reach(e, u, v)
    requires forall x, y :: x !in s && Edge(e, x, y) ==> Edge(e', x, y)
    ensures Reach(e', u, v) && u !in s
  {
    var p :| Follows(e, u, p, v);
    PathOutside(e, e', s, u, p, v);
  }

  lemma {:induction false} PathWithin(e: Edges, e': Edges, s: set<Vertex>, t: set<Vertex>, u: Vertex, p: Path,
                                      v: Vertex)
    requires Closed(e, s) && Closed(e, t) && u in t && v !in s && Follows(e, u, p, v)
    requires forall x, y :: x in t - s && y in t - s && Edge(e, x, y) ==> Edge(e', x, y)
    ensures Reach(e', u, v) && u !in s
    decreases p
  {
    match p
    case Here => ReachRefl(e', u);
    case Via(x, rest) =>
      PathWithin(e, e', s, t, x, rest, v);
      ReachStep(e', u, x, v);
  }

  /** A path from a closed set t to a vertex outside a closed set s uses only edges inside t - s. */
  lemma ReachWithin(e: Edges, e': Edges, s: set<Vertex>, t: set<Vertex>, u: Vertex, v: Vertex)
    requires Closed(e, s) && Closed(e, t) && u in t && v !in s && Reach(e, u, v)
    requires forall x, y :: x in t - s && y in t - s && Edge(e, x, y) ==> Edge(e', x, y)
    ensures Reach(e', u, v)
  {
    var p :| Follows(e, u, p, v);
    PathWithin(e, e', s, t, u, p, v);
  }

  lemma {:induction false} PathWithoutEdgeInto(e: Edges, b: Vertex, c: Vertex, u: Vertex, p: Path, v: Vertex)
    requires Follows(e, u, p, v)
    ensures Reach(e - {(b, c)}, u, v) || Reach(e - {(b, c)}, c, v)
    decreases p
  {
    match p
    case Here => ReachRefl(e - {(b, c)}, u);
    case Via(x, rest) =>
      PathWithoutEdgeInto(e, b, c, x, rest, v);
      if x != c && Reach(e - {(b, c)}, x, v) {
        ReachStep(e - {(b, c)}, u, x, v);
      }
  }

  /** Deleting one edge into c leaves everything that c reached still within c's reach:
      the part of a path after its last visit to c does not use that edge. */
  lemma ReachWithoutEdgeInto(e: Edges, b: Vertex, c: Vertex, v: Vertex)
    requires Reach(e, c, v)
    ensures Reach(e - {(b, c)}, c, v)
  {
    var p :| Follows(e, c, p, v);
    PathWithoutEdgeInto(e, b, c, c, p, v);
  }
}
