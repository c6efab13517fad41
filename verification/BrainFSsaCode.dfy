// Every step of the compiler keeps the certificate of well-formed code.
module BrainFSsaCode {
  import opened BrainFIr
  import opened BrainFCode
  import opened BrainFPlaces
  import opened BrainFSsa

  function Base(ly: Layout): set<Reg> {
    if ly.bounds then {ly.arr, ly.arrmax} else {ly.arr}
  }

  function Fixed(ly: Layout): nat {
    if ly.bounds then 3 else 2
  }

  /** The special blocks of the header. */
  ghost predicate FixedLive(ly: Layout, bs: seq<Block>, live: seq<set<Reg>>) {
    && |live| == |bs| >= Fixed(ly) && bs[1].phi == NoPhi && bs[1].term != Open && live[1] <= {ly.arr}
    && (ly.bounds ==> bs[2].phi == NoPhi && bs[2].term != Open && live[2] <= {ly.arr})
  }

  ghost predicate LoopLive(ly: Layout, c: Code, live: seq<set<Reg>>, l: OpenLoop) {
    && |live| == |c.blocks| && Fixed(ly) <= l.test && l.body == l.test + 1 < |c.blocks| && l.test != c.cur
    && live[l.test] == Base(ly) && live[l.body] <= Base(ly) + {l.phi}
    && c.blocks[l.test] == Block(Phi(l.phi, [(l.from, l.head)]), [], Open) && c.blocks[l.body].phi == NoPhi
  }

  ghost predicate LoopsLive(ly: Layout, c: Code, live: seq<set<Reg>>, open: seq<OpenLoop>) {
    && (forall j :: 0 <= j < |open| ==> LoopLive(ly, c, live, open[j]))
    && (forall i, j :: 0 <= i < j < |open| ==> open[i].body < open[j].test)
  }

  predicate IsTest(open: seq<OpenLoop>, b: Label) {
    exists j :: 0 <= j < |open| && open[j].test == b
  }

  /** Only the current block and the tests of open loops have no terminator. */
  ghost predicate OthersEnded(c: Code, open: seq<OpenLoop>) {
    forall b :: 0 <= b < |c.blocks| && b != c.cur && !IsTest(open, b) ==> c.blocks[b].term != Open
  }

  ghost predicate CurLive(ly: Layout, c: Code, live: seq<set<Reg>>) {
    && c.cur < |c.blocks| == |live| && c.blocks[c.cur].term == Open
    && Base(ly) + {c.head} <= Out(c.blocks[c.cur], live[c.cur])
  }

  ghost predicate Sound(ly: Layout, c: Code, k: Cert, open: seq<OpenLoop>) {
    && Certified(c.blocks, c.next, k) && FixedLive(ly, c.blocks, k.live) && LoopsLive(ly, c, k.live, open)
    && OthersEnded(c, open) && CurLive(ly, c, k.live)
  }

  /** The code so far has a certificate. */
  ghost predicate Ssa(ly: Layout, c: Code, open: seq<OpenLoop>) {
    exists k :: Sound(ly, c, k, open)
  }

  // ---------------------------------------------------------------- commands that stay in their block

  lemma PutSound(ly: Layout, c: Code, k: Cert, open: seq<OpenLoop>, instrs: seq<Instr>, head: Reg, next: Reg)
    returns (k': Cert)
    requires Sound(ly, c, k, open) && InOrder(instrs, Out(c.blocks[c.cur], k.live[c.cur]), c.next, next)
    requires head in Out(Added(c.blocks, c.cur, instrs)[c.cur], k.live[c.cur])
    ensures Sound(ly, Put(c, instrs, head, next), k', open) && k'.live == k.live
    ensures Out(c.blocks[c.cur], k.live[c.cur]) <= Out(Added(c.blocks, c.cur, instrs)[c.cur], k.live[c.cur])
  {
    hide Certified, Out, InOrder, IsTest, Base;
    k' := AllAdded(c.blocks, c.next, k, c.cur, instrs, next);
    var c' := Put(c, instrs, head, next);
    assert c'.blocks == Added(c.blocks, c.cur, instrs);
    forall j | 0 <= j < |open|
      ensures LoopLive(ly, c', k'.live, open[j])
    {
      assert LoopLive(ly, c, k.live, open[j]);
    }
  }

  lemma ChangeInOrder(head: Reg, r: Reg, v: int, known: set<Reg>)
    requires head in known
    ensures InOrder(ChangeInstrs(head, r, v), known, r, r + 2)
  {
    var code := ChangeInstrs(head, r, v);
    assert code[1..][1..] == [Store(r + 1, head)];
    assert InOrder(code[1..][1..], known + {r} + {r + 1}, r + 2, r + 2);
    assert InOrder(code[1..], known + {r}, r + 1, r + 2);
  }

  lemma ReadInOrder(head: Reg, r: Reg, known: set<Reg>)
    requires head in known
    ensures InOrder(ReadInstrs(head, r), known, r, r + 2)
  {
    var code := ReadInstrs(head, r);
    assert code[1..][1..] == [Store(r + 1, head)];
    assert InOrder(code[1..][1..], known + {r} + {r + 1}, r + 2, r + 2);
    assert InOrder(code[1..], known + {r}, r + 1, r + 2);
  }

  lemma WriteInOrder(head: Reg, r: Reg, known: set<Reg>)
    requires head in known
    ensures InOrder(WriteInstrs(head, r), known, r, r + 2)
  {
    var code := WriteInstrs(head, r);
    assert code[1..][1..] == [CallPutChar(r + 1)];
    assert InOrder(code[1..][1..], known + {r} + {r + 1}, r + 2, r + 2);
    assert InOrder(code[1..], known + {r}, r + 1, r + 2);
  }

  lemma CheckInOrder(ly: Layout, head: Reg, r: Reg, v: int, known: set<Reg>)
    requires head in known && {ly.arr, ly.arrmax} <= known
    ensures InOrder([Gep(r, head, v)] + CheckInstrs(ly, r), known, r, r + 4)
  {
    var code := [Gep(r, head, v)] + CheckInstrs(ly, r);
    assert code[1..] == CheckInstrs(ly, r);
    var ks := CheckInstrs(ly, r);
    assert ks[1..][1..] == [OrBits(r + 3, r + 1, r + 2)];
    assert InOrder(ks[1..][1..], known + {r} + {r + 1} + {r + 2}, r + 3, r + 4);
    assert InOrder(ks[1..], known + {r} + {r + 1}, r + 2, r + 4);
    assert InOrder(ks, known + {r}, r + 1, r + 4);
  }

  lemma ChangeSsa(ly: Layout, c: Code, open: seq<OpenLoop>, v: int)
    requires Ssa(ly, c, open)
    ensures Ssa(ly, ChangeCode(c, v), open)
  {
    hide InOrder, Out, Certified, Base, LoopsLive, OthersEnded, FixedLive, ChangeInstrs;
    var k :| Sound(ly, c, k, open);
    CurKnown(ly, c, k, open);
    ChangeInOrder(c.head, c.next, v, Out(c.blocks[c.cur], k.live[c.cur]));
    HeadKept(c, k, ChangeInstrs(c.head, c.next, v), c.next + 2);
    var k' := PutSound(ly, c, k, open, ChangeInstrs(c.head, c.next, v), c.head, c.next + 2);
  }

  lemma CurKnown(ly: Layout, c: Code, k: Cert, open: seq<OpenLoop>)
    requires Sound(ly, c, k, open)
    ensures |k.live| == |c.blocks| > c.cur && c.head in Out(c.blocks[c.cur], k.live[c.cur])
    ensures Base(ly) <= Out(c.blocks[c.cur], k.live[c.cur])
  {
  }

  lemma HeadKept(c: Code, k: Cert, instrs: seq<Instr>, next: Reg)
    requires Certified(c.blocks, c.next, k) && c.cur < |c.blocks| && c.blocks[c.cur].term == Open
    requires c.head in Out(c.blocks[c.cur], k.live[c.cur])
             && InOrder(instrs, Out(c.blocks[c.cur], k.live[c.cur]), c.next, next)
    ensures c.head in Out(Added(c.blocks, c.cur, instrs)[c.cur], k.live[c.cur])
  {
    hide InOrder, Out;
    var k' := AllAdded(c.blocks, c.next, k, c.cur, instrs, next);
  }

  lemma ReadSsa(ly: Layout, c: Code, open: seq<OpenLoop>)
    requires Ssa(ly, c, open)
    ensures Ssa(ly, ReadCode(c), open)
  {
    hide InOrder, Out, Certified, Base, LoopsLive, OthersEnded, FixedLive, ReadInstrs;
    var k :| Sound(ly, c, k, open);
    CurKnown(ly, c, k, open);
    ReadInOrder(c.head, c.next, Out(c.blocks[c.cur], k.live[c.cur]));
    HeadKept(c, k, ReadInstrs(c.head, c.next), c.next + 2);
    var k' := PutSound(ly, c, k, open, ReadInstrs(c.head, c.next), c.head, c.next + 2);
  }

  lemma WriteSsa(ly: Layout, c: Code, open: seq<OpenLoop>)
    requires Ssa(ly, c, open)
    ensures Ssa(ly, WriteCode(c), open)
  {
    hide InOrder, Out, Certified, Base, LoopsLive, OthersEnded, FixedLive, WriteInstrs;
    var k :| Sound(ly, c, k, open);
    CurKnown(ly, c, k, open);
    WriteInOrder(c.head, c.next, Out(c.blocks[c.cur], k.live[c.cur]));
    HeadKept(c, k, WriteInstrs(c.head, c.next), c.next + 2);
    var k' := PutSound(ly, c, k, open, WriteInstrs(c.head, c.next), c.head, c.next + 2);
  }

  // ---------------------------------------------------------------- moves

  lemma DefinedInBody(b: Block, live: set<Reg>, n: nat)
    requires n < |b.body|
    ensures Defs(b.body[n]) <= Out(b, live)
  {
    hide Defs;
    BodyDefsGrow(b.body, n + 1, |b.body|);
  }

  lemma {:induction false} BodyDefsGrow(body: seq<Instr>, n: nat, m: nat)
    requires n <= m <= |body|
    ensures BodyDefs(body, n) <= BodyDefs(body, m)
    decreases m
  {
    if n < m {
      BodyDefsGrow(body, n, m - 1);
    }
  }

  lemma PlainMoveSsa(ly: Layout, c: Code, open: seq<OpenLoop>, v: int)
    requires Ssa(ly, c, open) && !ly.bounds
    ensures Ssa(ly, MoveCode(ly, c, v), open)
  {
    hide Out, Certified, Base, LoopsLive, OthersEnded, FixedLive, Int32;
    var k :| Sound(ly, c, k, open);
    CurKnown(ly, c, k, open);
    var instrs := [Gep(c.next, c.head, Int32(v))];
    assert InOrder(instrs, Out(c.blocks[c.cur], k.live[c.cur]), c.next, c.next + 1);
    DefinedInBody(Added(c.blocks, c.cur, instrs)[c.cur], k.live[c.cur], |c.blocks[c.cur].body|);
    var k' := PutSound(ly, c, k, open, instrs, c.next, c.next + 1);
  }

  /** The state after the check has been emitted but before the branch. */
  lemma CheckSound(ly: Layout, c: Code, k: Cert, open: seq<OpenLoop>, v: int) returns (k': Cert)
    requires Sound(ly, c, k, open) && ly.bounds
    ensures var d := Put(c, [Gep(c.next, c.head, Int32(v))] + CheckInstrs(ly, c.next), c.next, c.next + 4);
            Sound(ly, d, k', open) && k'.live == k.live && c.next + 3 in Out(d.blocks[c.cur], k.live[c.cur])
  {
    hide Out, Certified, LoopsLive, OthersEnded, FixedLive, Int32, InOrder;
    CurKnown(ly, c, k, open);
    var instrs := [Gep(c.next, c.head, Int32(v))] + CheckInstrs(ly, c.next);
    CheckInOrder(ly, c.head, c.next, Int32(v), Out(c.blocks[c.cur], k.live[c.cur]));
    var n := |c.blocks[c.cur].body|;
    var b := Added(c.blocks, c.cur, instrs)[c.cur];
    assert b.body[n] == instrs[0] && b.body[n + 3] == instrs[3];
    DefinedInBody(b, k.live[c.cur], n);
    DefinedInBody(b, k.live[c.cur], n + 3);
    k' := PutSound(ly, c, k, open, instrs, c.next, c.next + 4);
  }

  /** Adding a block at the end leaves what is known about the others. */
  lemma Extended(ly: Layout, c: Code, c': Code, k: Cert, k': Cert, open: seq<OpenLoop>)
    requires FixedLive(ly, c.blocks, k.live) && LoopsLive(ly, c, k.live, open)
    requires |c.blocks| <= |c'.blocks| == |k'.live| && |k.live| == |c.blocks| && k.live <= k'.live
    requires forall x ::
               0 <= x < |c.blocks| ==>
                   x == c.cur || c'.blocks[x] == c.blocks[x]
                     || (!IsTest(open, x) && (c.blocks[x].phi == NoPhi ==> c'.blocks[x].phi == NoPhi))
    requires c.cur < |c.blocks| ==> c'.blocks[c.cur].phi == c.blocks[c.cur].phi
    requires forall x :: 0 <= x < |c.blocks| && c.blocks[x].term != Open ==> c'.blocks[x].term != Open
    requires c'.cur == c.cur || c'.cur >= |c.blocks|
    ensures FixedLive(ly, c'.blocks, k'.live) && LoopsLive(ly, c', k'.live, open)
  {
    hide Base;
    forall j | 0 <= j < |open|
      ensures LoopLive(ly, c', k'.live, open[j])
    {
      assert LoopLive(ly, c, k.live, open[j]) && IsTest(open, open[j].test);
    }
  }

  lemma CheckedMoveSsa(ly: Layout, c: Code, open: seq<OpenLoop>, v: int)
    requires Ssa(ly, c, open) && ly.bounds
    ensures Ssa(ly, MoveCode(ly, c, v), open)
  {
    hide Certified, Int32, InOrder, Known, CheckInstrs, LoopsLive;
    var k :| Sound(ly, c, k, open);
    var d := Put(c, [Gep(c.next, c.head, Int32(v))] + CheckInstrs(ly, c.next), c.next, c.next + 4);
    var k1 := CheckSound(ly, c, k, open, v);
    var n := |c.blocks|;
    var live := Base(ly) + {c.next};
    var k2 := NewBlockAdded(d.blocks, d.next, k1, false, live);
    var bs := d.blocks + [Block(NoPhi, [], Open)];
    var term := CondBr(c.next + 3, ly.aberror, n);
    assert CanEnd(bs, k2.live, c.cur, term, n, 0) by {
      assert bs[c.cur] == d.blocks[c.cur] && bs[2] == d.blocks[2];
      hide Out;
      assert c.cur != 2;
    }
    var k3 := BlockEnded(bs, d.next, k2, c.cur, term, n, 0);
    var c' := MoveCode(ly, c, v);
    assert c'.blocks == Ended(bs, c.cur, term, n, 0);
    Extended(ly, d, c', k1, k3, open);
    assert Sound(ly, c', k3, open);
  }

  // ---------------------------------------------------------------- loops

  lemma LoopsMore(ly: Layout, c: Code, live: seq<set<Reg>>, open: seq<OpenLoop>, l: OpenLoop)
    requires LoopsLive(ly, c, live, open) && LoopLive(ly, c, live, l)
             && forall j :: 0 <= j < |open| ==> open[j].body < l.test
    ensures LoopsLive(ly, c, live, open + [l])
  {
    hide LoopLive;
  }

  lemma TestsMore(open: seq<OpenLoop>, l: OpenLoop)
    ensures forall b :: IsTest(open + [l], b) <==> IsTest(open, b) || b == l.test
  {
    var all := open + [l];
    assert all[|open|] == l && forall j :: 0 <= j < |open| ==> all[j] == open[j];
    forall b | IsTest(open, b)
      ensures IsTest(all, b)
    {
      var j :| 0 <= j < |open| && open[j].test == b;
      assert all[j].test == b;
    }
  }

  lemma LoopSsa(ly: Layout, c: Code, open: seq<OpenLoop>, l: OpenLoop)
    requires Ssa(ly, c, open)
    requires l.from == c.cur && l.head == c.head && l.test == |c.blocks| && l.body == |c.blocks| + 1 && l.phi == c.next
    ensures Ssa(ly, LoopCode(c), open + [l])
  {
    hide Certified, Known, LoopsLive, IsTest;
    var k :| Sound(ly, c, k, open);
    var n := |c.blocks|;
    var k1 := NewBlockAdded(c.blocks, c.next, k, true, Base(ly));
    var bs1 := c.blocks + [Block(Phi(c.next, []), [], Open)];
    var k2 := NewBlockAdded(bs1, c.next + 1, k1, false, Base(ly) + {c.next});
    var bs2 := bs1 + [Block(NoPhi, [], Open)];
    assert bs2[c.cur] == c.blocks[c.cur] && k2.live[c.cur] == k.live[c.cur];
    assert CanEnd(bs2, k2.live, c.cur, Br(n), n, c.head) by {
      hide Out;
      assert Targets(Br(n)) == {n};
    }
    var k3 := BlockEnded(bs2, c.next + 1, k2, c.cur, Br(n), n, c.head);
    var c' := LoopCode(c);
    assert [] + [(c.cur, c.head)] == [(c.cur, c.head)];
    assert c'.blocks == Ended(bs2, c.cur, Br(n), n, c.head);
    NotTests(ly, c, k.live, open);
    Extended(ly, c, c', k, k3, open);
    LoopsMore(ly, c', k3.live, open, l) by {
      BodiesBelow(ly, c, k.live, open);
    }
    TestsMore(open, l);
    assert Sound(ly, c', k3, open + [l]);
  }

  lemma NotTests(ly: Layout, c: Code, live: seq<set<Reg>>, open: seq<OpenLoop>)
    requires LoopsLive(ly, c, live, open)
    ensures !IsTest(open, c.cur)
  {
    assert forall j :: 0 <= j < |open| ==> LoopLive(ly, c, live, open[j]);
  }

  lemma BodiesBelow(ly: Layout, c: Code, live: seq<set<Reg>>, open: seq<OpenLoop>)
    requires LoopsLive(ly, c, live, open)
    ensures forall j :: 0 <= j < |open| ==> open[j].body < |c.blocks|
  {
    assert forall j :: 0 <= j < |open| ==> LoopLive(ly, c, live, open[j]);
  }

  lemma LastLoop(ly: Layout, c: Code, live: seq<set<Reg>>, open: seq<OpenLoop>, l: OpenLoop)
    requires LoopsLive(ly, c, live, open + [l])
    ensures LoopLive(ly, c, live, l) && LoopsLive(ly, c, live, open) && !IsTest(open, l.test) && !IsTest(open, l.body)
    ensures !IsTest(open, c.cur)
  {
    var all := open + [l];
    assert all[|open|] == l && forall j :: 0 <= j < |open| ==> all[j] == open[j];
    forall j | 0 <= j < |open|
      ensures LoopLive(ly, c, live, open[j]) && open[j].test < l.test
    {
      assert LoopLive(ly, c, live, all[j]) && all[j].body < all[|open|].test;
    }
  }

  lemma TestInOrder(phi: Reg, r: Reg, known: set<Reg>)
    requires phi in known
    ensures InOrder(TestInstrs(phi, r), known, r, r + 2)
  {
    var code := TestInstrs(phi, r);
    assert code[1..] == [IsZero(r + 1, r)];
    assert InOrder(code[1..], known + {r}, r + 1, r + 2);
  }

  /** The test block gets its instructions. */
  lemma TestFilled(ly: Layout, c: Code, k: Cert, l: OpenLoop) returns (k': Cert)
    requires Certified(c.blocks, c.next, k) && |k.live| == |c.blocks| && LoopLive(ly, c, k.live, l)
    ensures var bs := Added(c.blocks, l.test, TestInstrs(l.phi, c.next));
            && Certified(bs, c.next + 2, k') && k'.live == k.live
            && Base(ly) + {l.phi, c.next + 1} <= Out(bs[l.test], k.live[l.test])
  {
    hide Certified, InOrder, Base;
    var instrs := TestInstrs(l.phi, c.next);
    TestInOrder(l.phi, c.next, Out(c.blocks[l.test], k.live[l.test]));
    k' := AllAdded(c.blocks, c.next, k, l.test, instrs, c.next + 2);
    var b := Added(c.blocks, l.test, instrs)[l.test];
    assert b.body[1] == IsZero(c.next + 1, c.next);
    DefinedInBody(b, k.live[l.test], 1);
  }

  /** Control from the end of the body goes back to the test. */
  lemma BackEdge(ly: Layout, c: Code, bs: seq<Block>, next: Reg, k: Cert, l: OpenLoop) returns (k': Cert)
    requires Certified(bs, next, k) && |bs| == |c.blocks| == |k.live| && CurLive(ly, c, k.live) && l.test < |bs|
             && l.test != c.cur
    requires bs[c.cur] == c.blocks[c.cur] && bs[l.test].phi.Phi? && k.live[l.test] == Base(ly)
    ensures Certified(Ended(bs, c.cur, Br(l.test), l.test, c.head), next, k') && k'.live == k.live
    ensures forall x :: 0 <= x < |bs| ==>
              Out(Ended(bs, c.cur, Br(l.test), l.test, c.head)[x], k.live[x]) == Out(bs[x], k.live[x])
  {
    hide Certified, Base, Out;
    assert Targets(Br(l.test)) == {l.test};
    assert CanEnd(bs, k.live, c.cur, Br(l.test), l.test, c.head);
    k' := BlockEnded(bs, next, k, c.cur, Br(l.test), l.test, c.head);
  }

  /** The test branches to the exit, a new block, or to the body. */
  lemma TestEnded(ly: Layout, bs: seq<Block>, next: Reg, k: Cert, l: OpenLoop, cond: Reg) returns (k': Cert)
    requires Certified(bs, next, k) && l.body < |bs| == |k.live| && l.test < |bs| && l.test != l.body
    requires bs[l.test].term == Open && bs[l.body].phi == NoPhi && k.live[l.body] <= Base(ly) + {l.phi}
    requires Base(ly) + {l.phi, cond} <= Out(bs[l.test], k.live[l.test])
    ensures var n, all := |bs|, bs + [Block(Phi(next, []), [], Open)];
            && Certified(Ended(all, l.test, CondBr(cond, n, l.body), n, l.phi), next + 1, k')
               && k'.live == k.live + [Base(ly)]
            && Out(Ended(all, l.test, CondBr(cond, n, l.body), n, l.phi)[n], Base(ly)) == Base(ly) + {next}
  {
    hide Certified, Base, Out;
    var n, all := |bs|, bs + [Block(Phi(next, []), [], Open)];
    var k1 := NewBlockAdded(bs, next, k, true, Base(ly));
    assert all[l.test] == bs[l.test] && all[l.body] == bs[l.body] && all[n].phi.Phi?;
    var term := CondBr(cond, n, l.body);
    assert Targets(term) == {n, l.body};
    assert CanEnd(all, k1.live, l.test, term, n, l.phi);
    k' := BlockEnded(all, next + 1, k1, l.test, term, n, l.phi);
  }

  lemma EndedSame(c: Code, l: OpenLoop)
    requires c.cur < |c.blocks| && l.test < |c.blocks| && l.test != c.cur
    requires c.blocks[l.test] == Block(Phi(l.phi, [(l.from, l.head)]), [], Open)
    ensures var bs := Ended(Added(c.blocks, l.test, TestInstrs(l.phi, c.next)), c.cur, Br(l.test), l.test, c.head);
            var all := bs + [Block(Phi(c.next + 2, []), [], Open)];
            && Ended(all, l.test, CondBr(c.next + 1, |bs|, l.body), |bs|, l.phi)
               == EndCode(c, l.test, l.body, l.phi).blocks
  {
    var bs := Ended(Added(c.blocks, l.test, TestInstrs(l.phi, c.next)), c.cur, Br(l.test), l.test, c.head);
    var all := bs + [Block(Phi(c.next + 2, []), [], Open)];
    var one := Ended(all, l.test, CondBr(c.next + 1, |bs|, l.body), |bs|, l.phi);
    var two := EndCode(c, l.test, l.body, l.phi).blocks;
    assert [] + [(l.test, l.phi)] == [(l.test, l.phi)];
    assert one[l.test] == two[l.test] && one[c.cur] == two[c.cur] && one[|bs|] == two[|bs|];
    assert forall x :: 0 <= x < |bs| && x != l.test && x != c.cur ==> one[x] == two[x];
  }

  lemma EndSsa(ly: Layout, c: Code, open: seq<OpenLoop>, l: OpenLoop)
    requires Ssa(ly, c, open + [l]) && c.cur < |c.blocks| && l.test < |c.blocks| && l.test != c.cur
             && c.blocks[l.test].phi.Phi?
    ensures Ssa(ly, EndCode(c, l.test, l.body, l.phi), open)
  {
    hide Certified, Known, LoopsLive, IsTest, Base, Out, TestInstrs, FixedLive, Targets;
    var k :| Sound(ly, c, k, open + [l]);
    LastLoop(ly, c, k.live, open, l);
    var n := |c.blocks|;
    var k1 := TestFilled(ly, c, k, l);
    var bs1 := Added(c.blocks, l.test, TestInstrs(l.phi, c.next));
    var k2 := BackEdge(ly, c, bs1, c.next + 2, k1, l);
    var bs2 := Ended(bs1, c.cur, Br(l.test), l.test, c.head);
    var k3 := TestEnded(ly, bs2, c.next + 2, k2, l, c.next + 1);
    EndedSame(c, l);
    var c' := EndCode(c, l.test, l.body, l.phi);
    Extended(ly, c, c', k, k3, open);
    TestsMore(open, l);
    assert Sound(ly, c', k3, open);
  }

  // ---------------------------------------------------------------- start and end

  /** Once no loop is open and the last block ends, the code is well-formed. */
  lemma FinishSsa(ly: Layout, c: Code)
    requires Ssa(ly, c, []) && c.cur < |c.blocks|
    ensures WellFormed(FinishCode(ly, c).blocks)
  {
    hide Certified, Base, Known, WellFormed;
    var k :| Sound(ly, c, k, []);
    var bs := FinishCode(ly, c).blocks;
    assert Targets(Br(ly.end)) == {ly.end};
    assert CanEnd(c.blocks, k.live, c.cur, Br(ly.end), ly.end, 0) by {
      BaseHasArr(ly);
      hide Out;
    }
    var k' := BlockEnded(c.blocks, c.next, k, c.cur, Br(ly.end), ly.end, 0);
    assert bs == Ended(c.blocks, c.cur, Br(ly.end), ly.end, 0);
    CertifiedIsWellFormed(bs, c.next, k');
  }

  lemma BaseHasArr(ly: Layout)
    ensures ly.arr in Base(ly)
  {
  }

  lemma HeaderInOrder(ly: Layout)
    ensures InOrder(HeaderInstrs(ly), {}, 0, ly.first + 1)
  {
    var code := HeaderInstrs(ly);
    if ly.bounds {
      assert code == [Malloc(0), Memset(0, ly.mem), Gep(1, 0, ly.mem), Gep(2, 0, ly.mem / 2)];
      assert code[1..][1..] == [Gep(1, 0, ly.mem), Gep(2, 0, ly.mem / 2)];
      assert code[1..][1..][1..] == [Gep(2, 0, ly.mem / 2)];
      assert InOrder(code[1..][1..][1..], {} + {0} + {} + {1}, 2, 3);
      assert InOrder(code[1..][1..], {} + {0} + {}, 1, 3);
      assert InOrder(code[1..], {} + {0}, 1, 3);
    } else {
      assert code == [Malloc(0), Memset(0, ly.mem), Gep(1, 0, ly.mem / 2)];
      assert code[1..][1..] == [Gep(1, 0, ly.mem / 2)];
      assert InOrder(code[1..][1..], {} + {0} + {}, 1, 2);
      assert InOrder(code[1..], {} + {0}, 1, 2);
    }
  }

  function EmptyEntry(ly: Layout): seq<Block> {
    [Block(NoPhi, [], Open), Block(NoPhi, [CallFree(ly.arr)], Ret)]
    + (if ly.bounds then [Block(NoPhi, [CallPuts], Br(ly.end))] else [])
  }

  function EntryCert(ly: Layout): Cert {
    if ly.bounds then Cert([{}, {ly.arr}, {ly.arr}], [[], [2], []], map[]) else Cert([{}, {ly.arr}], [[], []], map[])
  }

  lemma EntryCertified(ly: Layout)
    ensures Certified(EmptyEntry(ly), 0, EntryCert(ly))
  {
    var bs, k := EmptyEntry(ly), EntryCert(ly);
    forall b | 0 <= b < |bs|
      ensures BlockKnown(bs[b], k.live[b]) && BlockSites(bs[b], b, k.site, 0)
    {
    }
    forall b, t | 0 <= b < |bs| && t in Targets(bs[b].term)
      ensures t < |bs| && EdgeKnown(bs, k.live, b, t)
    {
      assert b == 2 && t == 1;
    }
    forall t | 0 <= t < |bs|
      ensures PredsFit(bs, k.preds, t)
    {
    }
  }

  lemma HeaderSsa(ly: Layout)
    ensures Ssa(ly, HeaderCode(ly), [])
  {
    hide Certified, InOrder, HeaderInstrs;
    EntryCertified(ly);
    HeaderInOrder(ly);
    var bs, k := EmptyEntry(ly), EntryCert(ly);
    assert Out(bs[0], k.live[0]) == {};
    var k' := AllAdded(bs, 0, k, 0, HeaderInstrs(ly), ly.first + 1);
    var c := HeaderCode(ly);
    assert [] + HeaderInstrs(ly) == HeaderInstrs(ly);
    assert Added(bs, 0, HeaderInstrs(ly)) == c.blocks;
    HeaderKnown(ly);
    assert Sound(ly, c, k', []);
  }

  lemma HeaderKnown(ly: Layout)
    ensures Base(ly) + {ly.first} <= Out(Block(NoPhi, HeaderInstrs(ly), Open), {})
  {
    hide Out;
    var b := Block(NoPhi, HeaderInstrs(ly), Open);
    DefinedInBody(b, {}, 0);
    DefinedInBody(b, {}, 2);
    if ly.bounds {
      DefinedInBody(b, {}, 3);
    }
  }
}
