// Every step of the compiler keeps: each position reached so far has its code in place, except the
// current one and the loops that are still open.
module BrainFPlaces {
  import opened BrainFLanguage
  import opened BrainFIr
  import opened BrainFCode

  /** A loop that is open: the position `at` of its code, its '[' at `cmd`, and its blocks. */
  datatype OpenLoop = OpenLoop(at: nat, cmd: nat, from: Label, head: Reg, test: Label, body: Label, phi: Reg)

  ghost predicate LoopPending(p: string, ly: Layout, c: Code, m: Places, l: OpenLoop) {
    && l.at in m && l.at <= l.cmd < |p| && CommandAt(p, l.at, l.cmd, l.cmd + 1, '[')
    && l.from < |c.blocks| && l.test < |c.blocks| && l.body < |c.blocks| && l.test != c.cur && l.from != l.test
    && c.blocks[l.test] == Block(Phi(l.phi, [(l.from, l.head)]), [], Open)
    && c.blocks[l.from].term == Br(l.test) && IsAt(m, l.at, l.from, |c.blocks[l.from].body|, l.head)
    && IsAt(m, l.cmd + 1, l.body, 0, l.phi) && c.blocks[l.body].phi == NoPhi
    && ly.first <= l.head < l.phi < c.next
  }

  ghost predicate LoopsPending(p: string, ly: Layout, c: Code, m: Places, open: seq<OpenLoop>) {
    && (forall k :: 0 <= k < |open| ==> LoopPending(p, ly, c, m, open[k]))
    && (forall j, k :: 0 <= j < k < |open| ==> open[j].test != open[k].test && open[j].at != open[k].at)
  }

  predicate IsOpen(open: seq<OpenLoop>, a: nat) {
    exists k :: 0 <= k < |open| && open[k].at == a
  }

  ghost predicate Current(p: string, ly: Layout, c: Code, m: Places, here: nat) {
    && here <= |p| && c.cur < |c.blocks| && c.blocks[c.cur].term == Open
    && IsAt(m, here, c.cur, |c.blocks[c.cur].body|, c.head)
    && ly.first <= c.head < c.next && (ly.bounds ==> |c.blocks| > 2) && |c.blocks| > 1
  }

  ghost predicate AllPlaced(p: string, ly: Layout, c: Code, m: Places, open: seq<OpenLoop>, here: nat) {
    forall a {:trigger Placed(p, ly, c.blocks, m, a)} ::
        a in m && a != here && !IsOpen(open, a) ==> Placed(p, ly, c.blocks, m, a)
  }

  ghost predicate Building(p: string, ly: Layout, c: Code, m: Places, open: seq<OpenLoop>, here: nat) {
    && Current(p, ly, c, m, here) && LoopsPending(p, ly, c, m, open) && AllPlaced(p, ly, c, m, open, here)
    && !IsOpen(open, here) && 0 in m && (forall a :: a in m ==> a <= here)
  }

  function Here(c: Code): Pos
    requires c.cur < |c.blocks|
  {
    Pos(c.cur, |c.blocks[c.cur].body|, c.head, 0, SymNone, 0, 0)
  }

  /** The token at `here` has been dealt with, and code goes on at `end`. */
  function Advanced(m: Places, c: Code, c': Code, here: nat, sym: Sym, cmd: nat, end: nat): Places
    requires here in m && c'.cur < |c'.blocks|
  {
    m[here := m[here].(reg := c.next, sym := sym, cmd := cmd, end := end)][end := Here(c')]
  }

  lemma AdvancedKeeps(m: Places, c: Code, c': Code, here: nat, sym: Sym, cmd: nat, end: nat)
    requires here in m && c'.cur < |c'.blocks| && (forall a :: a in m ==> a <= here) && here < end
    ensures var m' := Advanced(m, c, c', here, sym, cmd, end);
            && KeepsPlaces(m, m') && end in m' && m'[end] == Here(c') && (forall a :: a in m' ==> a <= end)
            && (forall a :: a in m && a != here ==> m'[a] == m[a]) && (forall a :: a in m' ==> a in m || a == end)
            && m'[here] == m[here].(reg := c.next, sym := sym, cmd := cmd, end := end)
  {
  }

  // ---------------------------------------------------------------- commands

  lemma StillPlaced(p: string, ly: Layout, c: Code, c': Code, m: Places, m': Places, open: seq<OpenLoop>,
                    open': seq<OpenLoop>,
                    here: nat, end: nat)
    requires AllPlaced(p, ly, c, m, open, here) && Grows(c.blocks, c'.blocks) && KeepsPlaces(m, m')
    requires forall a :: a in m && a != here ==> m'[a] == m[a]
    requires forall a :: a in m' ==> a in m || a == end
    requires here in m' && (!IsOpen(open', here) ==> Placed(p, ly, c'.blocks, m', here))
    requires forall a {:trigger IsOpen(open', a)} :: a in m && a != here && IsOpen(open, a) && !IsOpen(open', a) ==>
               Placed(p, ly, c'.blocks, m', a)
    ensures AllPlaced(p, ly, c', m', open', end)
  {
    forall a | a in m' && a != end && !IsOpen(open', a)
      ensures Placed(p, ly, c'.blocks, m', a)
    {
      if a != here && !IsOpen(open, a) {
        PlacedKept(p, ly, c.blocks, c'.blocks, m, m', a);
      }
    }
  }

  lemma PendingKept(p: string, ly: Layout, c: Code, c': Code, m: Places, m': Places, open: seq<OpenLoop>)
    requires LoopsPending(p, ly, c, m, open) && Grows(c.blocks, c'.blocks) && KeepsPlaces(m, m')
    requires c.next <= c'.next
    requires forall k :: 0 <= k < |open| ==> open[k].test != c'.cur && c'.blocks[open[k].test] == c.blocks[open[k].test]
    ensures LoopsPending(p, ly, c', m', open)
  {
    forall k | 0 <= k < |open|
      ensures LoopPending(p, ly, c', m', open[k])
    {
      var l := open[k];
      assert LoopPending(p, ly, c, m, l);
      assert c'.blocks[l.from].body == c.blocks[l.from].body;
      assert PhiGrows(c.blocks[l.body].phi, c'.blocks[l.body].phi);
    }
  }

  lemma PutGrows(c: Code, instrs: seq<Instr>, head: Reg, next: Reg)
    requires c.cur < |c.blocks| && c.blocks[c.cur].term == Open
    ensures var c' := Put(c, instrs, head, next);
            && Grows(c.blocks, c'.blocks) && c'.blocks[c.cur].term == Open
               && c'.blocks[c.cur].phi == c.blocks[c.cur].phi
            && |c'.blocks| == |c.blocks| && c'.blocks[c.cur].body == c.blocks[c.cur].body + instrs
            && HasInstrs(c'.blocks[c.cur].body, |c.blocks[c.cur].body|, instrs)
            && forall b :: 0 <= b < |c.blocks| && b != c.cur ==> c'.blocks[b] == c.blocks[b]
  {
    var body := c.blocks[c.cur].body;
    assert (body + instrs)[|body|..|body| + |instrs|] == instrs;
  }

  lemma NotOpenLater(p: string, ly: Layout, c: Code, m: Places, open: seq<OpenLoop>, here: nat, end: nat)
    requires LoopsPending(p, ly, c, m, open) && (forall a :: a in m ==> a <= here) && here < end
    ensures !IsOpen(open, end)
  {
    assert forall k :: 0 <= k < |open| ==> LoopPending(p, ly, c, m, open[k]);
  }

  /** A command that stays in its block. */
  lemma PutBuilds(p: string, ly: Layout, c: Code, m: Places, open: seq<OpenLoop>, here: nat,
                  instrs: seq<Instr>, head: Reg, next: Reg, sym: Sym, cmd: nat, end: nat)
    requires Building(p, ly, c, m, open, here) && here < end <= |p|
    requires ly.first <= head < next && c.next <= next
    requires var c' := Put(c, instrs, head, next); Placed(p, ly, c'.blocks, Advanced(m, c, c', here, sym, cmd, end),
               here)
    ensures var c' := Put(c, instrs, head, next); Building(p, ly, c', Advanced(m, c, c', here, sym, cmd, end), open,
              end)
  {
    hide Placed, LoopPending, Grows;
    var c' := Put(c, instrs, head, next);
    var m' := Advanced(m, c, c', here, sym, cmd, end);
    AdvancedKeeps(m, c, c', here, sym, cmd, end);
    PutGrows(c, instrs, head, next);
    NotOpenLater(p, ly, c, m, open, here, end);
    StillPlaced(p, ly, c, c', m, m', open, open, here, end);
    TestsElsewhere(p, ly, c, m, open);
    PendingKept(p, ly, c, c', m, m', open);
  }

  lemma TestsElsewhere(p: string, ly: Layout, c: Code, m: Places, open: seq<OpenLoop>)
    requires LoopsPending(p, ly, c, m, open)
    ensures forall k :: 0 <= k < |open| ==> open[k].test != c.cur && open[k].test < |c.blocks|
  {
    assert forall k :: 0 <= k < |open| ==> LoopPending(p, ly, c, m, open[k]);
  }

  lemma ChangeBuilds(p: string, ly: Layout, c: Code, m: Places, open: seq<OpenLoop>, here: nat, cmd: nat, end: nat)
    requires Building(p, ly, c, m, open, here) && TokenIs(p, here, SymChange, cmd, end)
    ensures var c' := ChangeCode(c, Delta(p, cmd, end, '+', '-'));
            Building(p, ly, c', Advanced(m, c, c', here, SymChange, cmd, end), open, end)
  {
    hide AllPlaced, LoopsPending;
    var instrs := ChangeInstrs(c.head, c.next, Delta(p, cmd, end, '+', '-'));
    PutGrows(c, instrs, c.head, c.next + 2);
    AdvancedKeeps(m, c, ChangeCode(c, Delta(p, cmd, end, '+', '-')), here, SymChange, cmd, end);
    PutBuilds(p, ly, c, m, open, here, instrs, c.head, c.next + 2, SymChange, cmd, end);
  }

  lemma ReadBuilds(p: string, ly: Layout, c: Code, m: Places, open: seq<OpenLoop>, here: nat, cmd: nat, end: nat)
    requires Building(p, ly, c, m, open, here) && TokenIs(p, here, SymRead, cmd, end)
    ensures Building(p, ly, ReadCode(c), Advanced(m, c, ReadCode(c), here, SymRead, cmd, end), open, end)
  {
    hide AllPlaced, LoopsPending;
    PutGrows(c, ReadInstrs(c.head, c.next), c.head, c.next + 2);
    AdvancedKeeps(m, c, ReadCode(c), here, SymRead, cmd, end);
    PutBuilds(p, ly, c, m, open, here, ReadInstrs(c.head, c.next), c.head, c.next + 2, SymRead, cmd, end);
  }

  lemma WriteBuilds(p: string, ly: Layout, c: Code, m: Places, open: seq<OpenLoop>, here: nat, cmd: nat, end: nat)
    requires Building(p, ly, c, m, open, here) && TokenIs(p, here, SymWrite, cmd, end)
    ensures Building(p, ly, WriteCode(c), Advanced(m, c, WriteCode(c), here, SymWrite, cmd, end), open, end)
  {
    hide AllPlaced, LoopsPending;
    PutGrows(c, WriteInstrs(c.head, c.next), c.head, c.next + 2);
    AdvancedKeeps(m, c, WriteCode(c), here, SymWrite, cmd, end);
    PutBuilds(p, ly, c, m, open, here, WriteInstrs(c.head, c.next), c.head, c.next + 2, SymWrite, cmd, end);
  }

  /** Every head register is used below the next one. */
  lemma MoveBuilds(p: string, ly: Layout, c: Code, m: Places, open: seq<OpenLoop>, here: nat, cmd: nat, end: nat)
    requires Building(p, ly, c, m, open, here) && TokenIs(p, here, SymMove, cmd, end)
    ensures var c' := MoveCode(ly, c, Delta(p, cmd, end, '>', '<'));
            Building(p, ly, c', Advanced(m, c, c', here, SymMove, cmd, end), open, end)
  {
    var k := Int32(Delta(p, cmd, end, '>', '<'));
    var c' := MoveCode(ly, c, Delta(p, cmd, end, '>', '<'));
    if ly.bounds {
      CheckedMoveBuilds(p, ly, c, m, open, here, cmd, end);
    } else {
      hide AllPlaced, LoopsPending;
      PutGrows(c, [Gep(c.next, c.head, k)], c.next, c.next + 1);
      AdvancedKeeps(m, c, c', here, SymMove, cmd, end);
      PutBuilds(p, ly, c, m, open, here, [Gep(c.next, c.head, k)], c.next, c.next + 1, SymMove, cmd, end);
    }
  }

  lemma CheckedMoveShape(ly: Layout, c: Code, k: int)
    requires ly.bounds && c.cur < |c.blocks| && c.blocks[c.cur].term == Open
    ensures var c' := MoveCode(ly, c, k);
            && Grows(c.blocks, c'.blocks) && |c'.blocks| == |c.blocks| + 1
            && c'.blocks[|c.blocks|] == Block(NoPhi, [], Open)
            && HasInstrs(c'.blocks[c.cur].body, |c.blocks[c.cur].body|, [Gep(c.next, c.head, Int32(k))])
            && HasInstrs(c'.blocks[c.cur].body, |c.blocks[c.cur].body| + 1, CheckInstrs(ly, c.next))
            && |c'.blocks[c.cur].body| == |c.blocks[c.cur].body| + 4
            && c'.blocks[c.cur].term == CondBr(c.next + 3, ly.aberror, |c.blocks|)
            && forall b :: 0 <= b < |c.blocks| && b != c.cur ==> c'.blocks[b] == c.blocks[b]
  {
    var instrs := [Gep(c.next, c.head, Int32(k))] + CheckInstrs(ly, c.next);
    var body := c.blocks[c.cur].body;
    PutGrows(c, instrs, c.next, c.next + 4);
    assert (body + instrs)[|body|..|body| + 1] == [Gep(c.next, c.head, Int32(k))];
    assert (body + instrs)[|body| + 1..|body| + 4] == CheckInstrs(ly, c.next);
  }

  lemma CheckedMoveBuilds(p: string, ly: Layout, c: Code, m: Places, open: seq<OpenLoop>, here: nat, cmd: nat, end: nat)
    requires Building(p, ly, c, m, open, here) && TokenIs(p, here, SymMove, cmd, end) && ly.bounds
    ensures var c' := MoveCode(ly, c, Delta(p, cmd, end, '>', '<'));
            Building(p, ly, c', Advanced(m, c, c', here, SymMove, cmd, end), open, end)
  {
    hide LoopPending, Grows;
    var k := Delta(p, cmd, end, '>', '<');
    var c' := MoveCode(ly, c, k);
    var m' := Advanced(m, c, c', here, SymMove, cmd, end);
    CheckedMoveShape(ly, c, k);
    AdvancedKeeps(m, c, c', here, SymMove, cmd, end);
    assert Placed(p, ly, c'.blocks, m', here);
    NotOpenLater(p, ly, c, m, open, here, end);
    StillPlaced(p, ly, c, c', m, m', open, open, here, end);
    TestsElsewhere(p, ly, c, m, open);
    PendingKept(p, ly, c, c', m, m', open);
  }

  // ---------------------------------------------------------------- loops

  lemma LoopShape(c: Code)
    requires c.cur < |c.blocks| && c.blocks[c.cur].term == Open
    ensures var c', n := LoopCode(c), |c.blocks|;
            && Grows(c.blocks, c'.blocks) && |c'.blocks| == n + 2 && c'.cur == n + 1
            && c'.blocks[n] == Block(Phi(c.next, [(c.cur, c.head)]), [], Open)
               && c'.blocks[n + 1] == Block(NoPhi, [], Open)
            && c'.blocks[c.cur] == c.blocks[c.cur].(term := Br(n))
            && forall b :: 0 <= b < n && b != c.cur ==> c'.blocks[b] == c.blocks[b]
  {
  }

  lemma IsOpenMore(open: seq<OpenLoop>, l: OpenLoop)
    ensures forall a :: IsOpen(open + [l], a) <==> IsOpen(open, a) || a == l.at
  {
    var open' := open + [l];
    assert open'[|open|] == l && forall k :: 0 <= k < |open| ==> open'[k] == open[k];
    forall a | IsOpen(open, a)
      ensures IsOpen(open', a)
    {
      var k :| 0 <= k < |open| && open[k].at == a;
      assert open'[k].at == a;
    }
  }

  /** A '[' adds an open loop. */
  lemma LoopBuilds(p: string, ly: Layout, c: Code, m: Places, open: seq<OpenLoop>, here: nat, cmd: nat)
    requires Building(p, ly, c, m, open, here) && TokenIs(p, here, SymLoop, cmd, cmd + 1)
    ensures var n := |c.blocks|;
            Building(p, ly, LoopCode(c), Advanced(m, c, LoopCode(c), here, SymLoop, cmd, cmd + 1),
                     open + [OpenLoop(here, cmd, c.cur, c.head, n, n + 1, c.next)], cmd + 1)
  {
    hide Placed, Grows, HasInstrs;
    var n, c' := |c.blocks|, LoopCode(c);
    var l := OpenLoop(here, cmd, c.cur, c.head, n, n + 1, c.next);
    var m' := Advanced(m, c, c', here, SymLoop, cmd, cmd + 1);
    LoopShape(c);
    AdvancedKeeps(m, c, c', here, SymLoop, cmd, cmd + 1);
    IsOpenMore(open, l);
    NotOpenLater(p, ly, c, m, open, here, cmd + 1);
    StillPlaced(p, ly, c, c', m, m', open, open + [l], here, cmd + 1);
    TestsElsewhere(p, ly, c, m, open);
    PendingKept(p, ly, c, c', m, m', open);
    assert LoopPending(p, ly, c', m', l);
    OnePendingMore(p, ly, c', m', open, l);
  }

  lemma OnePendingMore(p: string, ly: Layout, c: Code, m: Places, open: seq<OpenLoop>, l: OpenLoop)
    requires LoopsPending(p, ly, c, m, open) && LoopPending(p, ly, c, m, l)
    requires forall k :: 0 <= k < |open| ==> open[k].test != l.test && open[k].at != l.at
    ensures LoopsPending(p, ly, c, m, open + [l])
  {
  }

  lemma EndShape(c: Code, test: Label, body: Label, phi: Reg, from: Label, head: Reg)
    requires c.cur < |c.blocks| && c.blocks[c.cur].term == Open && test < |c.blocks| && test != c.cur
    requires c.blocks[test] == Block(Phi(phi, [(from, head)]), [], Open)
    ensures var c', n := EndCode(c, test, body, phi), |c.blocks|;
            && Grows(c.blocks, c'.blocks) && |c'.blocks| == n + 1 && c'.cur == n
            && c'.blocks[test]
               == Block(Phi(phi, [(from, head), (c.cur, c.head)]), TestInstrs(phi, c.next), CondBr(c.next + 1, n, body))
            && c'.blocks[n] == Block(Phi(c.next + 2, [(test, phi)]), [], Open)
            && c'.blocks[c.cur] == c.blocks[c.cur].(term := Br(test))
            && forall b :: 0 <= b < n && b != c.cur && b != test ==> c'.blocks[b] == c.blocks[b]
  {
    var c' := EndCode(c, test, body, phi);
    assert [(from, head)] + [(c.cur, c.head)] == [(from, head), (c.cur, c.head)];
    assert c'.blocks[test].body == TestInstrs(phi, c.next);
  }

  lemma FeedsTwo(a: Label, x: Reg, b: Label, y: Reg)
    requires a != b
    ensures Feeds([(a, x), (b, y)], a, x) && Feeds([(a, x), (b, y)], b, y) && Feeds([(a, x)], a, x)
  {
    var inc := [(a, x), (b, y)];
    assert inc[1..] == [(b, y)];
  }

  /** The brackets of the loop that ends are mates. */
  lemma EndMates(p: string, l: OpenLoop, q: nat)
    requires l.cmd < |p| && p[l.cmd] == '[' && Skips(p, l.cmd + 1, q) && q < |p| && p[q] == ']'
    ensures ScanClose(p, l.cmd + 1, 0) == q && ScanOpen(p, q, 0) == l.cmd
  {
    assert Skips(p, l.cmd, l.cmd);
    SkipsLoop(p, l.cmd, l.cmd, q);
  }

  lemma EndLoopPlaced(p: string, ly: Layout, c: Code, m: Places, m': Places, here: nat, q: nat, l: OpenLoop)
    requires Current(p, ly, c, m, here) && LoopPending(p, ly, c, m, l) && q < |p| && ScanClose(p, l.cmd + 1, 0) == q
    requires KeepsPlaces(m, m') && IsAt(m', q + 1, EndCode(c, l.test, l.body, l.phi).cur, 0, c.next + 2)
    ensures LoopPlaced(p, EndCode(c, l.test, l.body, l.phi).blocks, m', l.cmd, l.test, c.next)
  {
    hide ScanClose, Grows;
    EndShape(c, l.test, l.body, l.phi, l.from, l.head);
    FeedsTwo(l.test, l.phi, l.test + 1, 0);
    assert IsAt(m', l.cmd + 1, l.body, 0, l.phi);
    assert l.body != l.test && c.blocks[l.body].phi == NoPhi;
  }

  /** The last open loop, finished. */
  lemma EndPlaced(p: string, ly: Layout, c: Code, m: Places, m': Places, here: nat, q: nat, l: OpenLoop)
    requires Current(p, ly, c, m, here) && LoopPending(p, ly, c, m, l) && l.at != here
    requires TokenIs(p, here, SymEndLoop, q, q + 1) && Skips(p, l.cmd + 1, q)
    requires var c' := EndCode(c, l.test, l.body, l.phi);
             && KeepsPlaces(m, m') && IsAt(m', q + 1, c'.cur, 0, c.next + 2)
             && m'[here] == m[here].(reg := c.next, sym := SymEndLoop, cmd := q, end := q + 1)
             && m'[l.at].reg == c.next && m'[l.at].sym == SymLoop && m'[l.at].cmd == l.cmd && m'[l.at].end == l.cmd + 1
    ensures var c' := EndCode(c, l.test, l.body, l.phi);
            Placed(p, ly, c'.blocks, m', here) && Placed(p, ly, c'.blocks, m', l.at)
  {
    hide ScanClose, ScanOpen, LoopPlaced, Grows, Skips;
    assert l.from != c.cur;
    EndMates(p, l, q);
    EndShape(c, l.test, l.body, l.phi, l.from, l.head);
    FeedsTwo(l.from, l.head, c.cur, c.head);
    EndLoopPlaced(p, ly, c, m, m', here, q, l);
  }

  function Closed(m: Places, c: Code, c': Code, here: nat, q: nat, l: OpenLoop): Places
    requires here in m && l.at in m && c'.cur < |c'.blocks|
  {
    Advanced(m[l.at := m[l.at].(reg := c.next)], c, c', here, SymEndLoop, q, q + 1)
  }

  /** What the places are once the loop is closed. */
  lemma ClosedPlaces(m: Places, c: Code, c': Code, here: nat, q: nat, l: OpenLoop)
    requires here in m && l.at in m && c'.cur < |c'.blocks| && l.at != here && here <= q
             && forall a :: a in m ==> a <= here
    ensures var m' := Closed(m, c, c', here, q, l);
            && KeepsPlaces(m, m') && (forall a :: a in m && a != here && a != l.at ==> m'[a] == m[a])
            && (forall a :: a in m' ==> a in m || a == q + 1) && (forall a :: a in m' ==> a <= q + 1)
            && here in m' && m'[here] == m[here].(reg := c.next, sym := SymEndLoop, cmd := q, end := q + 1)
            && l.at in m' && m'[l.at] == m[l.at].(reg := c.next) && q + 1 in m' && m'[q + 1] == Here(c')
  {
    AdvancedKeeps(m[l.at := m[l.at].(reg := c.next)], c, c', here, SymEndLoop, q, q + 1);
  }

  lemma PendingButOne(p: string, ly: Layout, c: Code, m: Places, open: seq<OpenLoop>, l: OpenLoop)
    requires LoopsPending(p, ly, c, m, open + [l])
    ensures LoopsPending(p, ly, c, m, open) && LoopPending(p, ly, c, m, l) && IsOpen(open + [l], l.at)
    ensures forall k :: 0 <= k < |open| ==> open[k].test != l.test && open[k].at != l.at
  {
    hide LoopPending;
    var all := open + [l];
    assert all[|open|] == l && forall k :: 0 <= k < |open| ==> all[k] == open[k];
    assert LoopPending(p, ly, c, m, all[|open|]);
  }

  /** The loops still open are as they were. */
  lemma EndKeepsPending(p: string, ly: Layout, c: Code, m: Places, m': Places, open: seq<OpenLoop>, here: nat,
                        l: OpenLoop)
    requires Current(p, ly, c, m, here) && LoopsPending(p, ly, c, m, open + [l]) && KeepsPlaces(m, m')
    ensures LoopPending(p, ly, c, m, l)
    ensures var c' := EndCode(c, l.test, l.body, l.phi);
            Grows(c.blocks, c'.blocks) && LoopsPending(p, ly, c', m', open)
  {
    hide LoopPending, Grows, KeepsPlaces;
    PendingButOne(p, ly, c, m, open, l);
    PendingShape(p, ly, c, m, l);
    EndShape(c, l.test, l.body, l.phi, l.from, l.head);
    TestsElsewhere(p, ly, c, m, open);
    PendingKept(p, ly, c, EndCode(c, l.test, l.body, l.phi), m, m', open);
  }

  lemma PendingShape(p: string, ly: Layout, c: Code, m: Places, l: OpenLoop)
    requires LoopPending(p, ly, c, m, l)
    ensures l.test < |c.blocks| && l.test != c.cur
            && c.blocks[l.test] == Block(Phi(l.phi, [(l.from, l.head)]), [], Open)
    ensures l.at in m && ly.first <= l.head < l.phi < c.next && l.at <= l.cmd
  {
  }

  lemma EndCurrent(p: string, ly: Layout, c: Code, m: Places, m': Places, here: nat, q: nat, l: OpenLoop)
    requires Current(p, ly, c, m, here) && LoopPending(p, ly, c, m, l) && q < |p| && q + 1 in m'
    requires EndCode(c, l.test, l.body, l.phi).cur < |EndCode(c, l.test, l.body, l.phi).blocks|
    requires m'[q + 1] == Here(EndCode(c, l.test, l.body, l.phi))
    ensures Current(p, ly, EndCode(c, l.test, l.body, l.phi), m', q + 1)
  {
    hide Grows;
    EndShape(c, l.test, l.body, l.phi, l.from, l.head);
  }

  /** A ']' closes the last open loop. */
  lemma EndBuilds(p: string, ly: Layout, c: Code, m: Places, open: seq<OpenLoop>, here: nat, q: nat, l: OpenLoop)
    requires Building(p, ly, c, m, open + [l], here) && TokenIs(p, here, SymEndLoop, q, q + 1) && Skips(p, l.cmd + 1, q)
    requires l.at in m && m[l.at].sym == SymLoop && m[l.at].cmd == l.cmd && m[l.at].end == l.cmd + 1
    requires l.test < |c.blocks| && l.test != c.cur && c.blocks[l.test].phi.Phi?
    ensures var c' := EndCode(c, l.test, l.body, l.phi);
            Building(p, ly, c', Closed(m, c, c', here, q, l), open, q + 1)
  {
    hide Placed, Grows, LoopPending, LoopsPending, AllPlaced, IsOpen, KeepsPlaces, Skips, EndCode, Current, Closed;
    CurrentThere(p, ly, c, m, here);
    var c' := EndCode(c, l.test, l.body, l.phi);
    EndLast(c, l.test, l.body, l.phi);
    var m' := Closed(m, c, c', here, q, l);
    TokenRange(p, here, SymEndLoop, q, q + 1);
    PendingButOne(p, ly, c, m, open, l);
    PendingShape(p, ly, c, m, l);
    IsOpenMore(open, l);
    ClosedPlaces(m, c, c', here, q, l);
    EndKeepsPending(p, ly, c, m, m', open, here, l);
    EndCurrent(p, ly, c, m, m', here, q, l);
    AtNewBlock(m', q + 1, c', c.next + 2);
    EndPlaced(p, ly, c, m, m', here, q, l);
    NotOpenLater(p, ly, c, m, open + [l], here, q + 1);
    StillPlacedButOne(p, ly, c, c', m, m', open, l, here, q + 1);
    ZeroKept(m, m');
  }

  lemma CurrentThere(p: string, ly: Layout, c: Code, m: Places, here: nat)
    requires Current(p, ly, c, m, here)
    ensures here in m && c.cur < |c.blocks|
  {
  }

  lemma EndLast(c: Code, test: Label, body: Label, phi: Reg)
    requires c.cur < |c.blocks| && test < |c.blocks| && c.blocks[test].phi.Phi? && test != c.cur
    ensures var c' := EndCode(c, test, body, phi);
            c'.cur < |c'.blocks| && |c'.blocks[c'.cur].body| == 0 && c'.head == c.next + 2
  {
  }

  lemma AtNewBlock(m: Places, a: nat, c: Code, head: Reg)
    requires a in m && c.cur < |c.blocks| && m[a] == Here(c) && |c.blocks[c.cur].body| == 0 && c.head == head
    ensures IsAt(m, a, c.cur, 0, head)
  {
  }

  lemma ZeroKept(m: Places, m': Places)
    requires KeepsPlaces(m, m') && 0 in m
    ensures 0 in m'
  {
  }

  lemma StillPlacedButOne(p: string, ly: Layout, c: Code, c': Code, m: Places, m': Places, open: seq<OpenLoop>,
                          l: OpenLoop,
                          here: nat, end: nat)
    requires AllPlaced(p, ly, c, m, open + [l], here) && Grows(c.blocks, c'.blocks) && KeepsPlaces(m, m')
    requires forall a :: a in m && a != here && a != l.at ==> m'[a] == m[a]
    requires forall a :: a in m' ==> a in m || a == end
    requires here in m' && l.at in m' && Placed(p, ly, c'.blocks, m', here) && Placed(p, ly, c'.blocks, m', l.at)
    ensures AllPlaced(p, ly, c', m', open, end)
  {
    IsOpenMore(open, l);
    forall a | a in m' && a != end && !IsOpen(open, a)
      ensures Placed(p, ly, c'.blocks, m', a)
    {
      if a != here && a != l.at {
        PlacedKept(p, ly, c.blocks, c'.blocks, m, m', a);
      }
    }
  }

  // ---------------------------------------------------------------- start and end

  lemma HeaderBuilds(p: string, ly: Layout)
    ensures var c := HeaderCode(ly); Building(p, ly, c, map[0 := Here(c)], [], 0)
  {
  }

  /** Complete code: every position reached is placed. */
  ghost predicate Complete(p: string, ly: Layout, bs: seq<Block>, m: Places) {
    && 0 in m && IsAt(m, 0, 0, |HeaderInstrs(ly)|, ly.first)
    && |bs| > 1 && bs[0].phi == NoPhi && HeaderInstrs(ly) <= bs[0].body
    && bs[1] == Block(NoPhi, [CallFree(ly.arr)], Ret)
       && (ly.bounds ==> |bs| > 2 && bs[2] == Block(NoPhi, [CallPuts], Br(1)))
    && forall a {:trigger Placed(p, ly, bs, m, a)} :: a in m ==> Placed(p, ly, bs, m, a)
  }

  /** What the header emitted is still there. */
  ghost predicate Framed(ly: Layout, c: Code, m: Places) {
    Grows(HeaderCode(ly).blocks, c.blocks) && KeepsPlaces(map[0 := Here(HeaderCode(ly))], m)
  }

  lemma GrowsThen(a: seq<Block>, b: seq<Block>, c: seq<Block>)
    requires Grows(a, b) && Grows(b, c)
    ensures Grows(a, c)
  {
    forall i | 0 <= i < |a|
      ensures a[i].body <= c[i].body && PhiGrows(a[i].phi, c[i].phi)
      ensures a[i].term != Open ==> c[i].term == a[i].term && c[i].body == a[i].body
    {
      assert a[i].body <= b[i].body && b[i].body <= c[i].body;
    }
  }

  /** The end of the program, with no loop open. */
  lemma FinishComplete(p: string, ly: Layout, c: Code, m: Places, here: nat)
    requires Building(p, ly, c, m, [], here) && TokenIs(p, here, SymEof, |p|, |p|) && Framed(ly, c, m)
    ensures var c' := FinishCode(ly, c);
            Complete(p, ly, c'.blocks, m[here := m[here].(reg := c.next, sym := SymEof, cmd := |p|, end := |p|)])
  {
    var c' := FinishCode(ly, c);
    var m' := m[here := m[here].(reg := c.next, sym := SymEof, cmd := |p|, end := |p|)];
    assert Grows(c.blocks, c'.blocks) && KeepsPlaces(m, m');
    forall a | a in m'
      ensures Placed(p, ly, c'.blocks, m', a)
    {
      if a != here {
        assert !IsOpen([], a);
        PlacedKept(p, ly, c.blocks, c'.blocks, m, m', a);
      }
    }
    GrowsThen(HeaderCode(ly).blocks, c.blocks, c'.blocks);
    FrameFacts(ly, c'.blocks, m');
  }

  lemma FrameFacts(ly: Layout, bs: seq<Block>, m: Places)
    requires Grows(HeaderCode(ly).blocks, bs) && KeepsPlaces(map[0 := Here(HeaderCode(ly))], m)
    ensures IsAt(m, 0, 0, |HeaderInstrs(ly)|, ly.first) && |bs| > 1 && bs[0].phi == NoPhi
            && HeaderInstrs(ly) <= bs[0].body
    ensures bs[1] == Block(NoPhi, [CallFree(ly.arr)], Ret)
            && (ly.bounds ==> |bs| > 2 && bs[2] == Block(NoPhi, [CallPuts], Br(1)))
  {
    var h := HeaderCode(ly).blocks;
    assert PhiGrows(h[0].phi, bs[0].phi) && PhiGrows(h[1].phi, bs[1].phi);
    if ly.bounds { assert PhiGrows(h[2].phi, bs[2].phi); }
    var m0: Places := map[0 := Here(HeaderCode(ly))];
    assert 0 in m0;
  }
}
