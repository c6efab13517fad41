// BrainF::parse: a lexer that adds up runs of + - and of < >, and a recursive loop reader that emits
// the code as it reads.
module BrainF {
  import opened BrainFLanguage
  import opened BrainFIr
  import opened BrainFCode
  import opened BrainFPlaces
  import opened BrainFSsa
  import opened BrainFSsaCode

  /** Where the loop reader was called from. */
  datatype Enclosing = TopLevel | InLoop(phi: Reg, oldbb: Label, testbb: Label)

  datatype ParseError = NoError | ExtraClose | MissingClose

  // ---------------------------------------------------------------- the lexer

  function SymOf(c: char): Sym {
    match c
    case '+' => SymChange
    case '-' => SymChange
    case '<' => SymMove
    case '>' => SymMove
    case ',' => SymRead
    case '.' => SymWrite
    case '[' => SymLoop
    case ']' => SymEndLoop
    case _ => SymNone
  }

  function Direction(c: char): int {
    if c == '-' || c == '<' then -1 else 1
  }

  /** What has been read beyond position e: nothing, the first character of a token, or the end. */
  ghost predicate Ahead(p: string, e: nat, at: nat, sym: Sym, value: int) {
    && e <= at <= |p|
    && (sym == SymNone ==> at == e)
    && (sym == SymEof ==> at == e == |p|)
    && (sym != SymNone && sym != SymEof ==> at == e + 1 && SymOf(p[e]) == sym)
    && (sym == SymMove || sym == SymChange ==> value == Direction(p[e]))
  }

  /** A token that may still grow. */
  ghost predicate Partial(p: string, a: nat, cmd: nat, at: nat, sym: Sym, value: int) {
    match sym
    case SymNone => Comments(p, a, at)
    case SymChange => Stretch(p, a, cmd, at, '+', '-') && value == Delta(p, cmd, at, '+', '-')
    case SymMove => Stretch(p, a, cmd, at, '>', '<') && value == Delta(p, cmd, at, '>', '<')
    case _ => false
  }

  predicate Growing(sym: Sym) {
    sym == SymNone || sym == SymMove || sym == SymChange
  }

  ghost predicate TokenRead(p: string, a: nat, sym: Sym, value: int, cmd: nat, end: nat) {
    && TokenIs(p, a, sym, cmd, end) && cmd <= end <= |p|
    && (sym == SymChange || sym == SymMove ==> value == TokenValue(p, sym, cmd, end))
  }

  lemma DeltaOne(p: string, c: nat, up: char, down: char)
    requires c < |p|
    ensures Delta(p, c, c + 1, up, down) == if p[c] == up then 1 else if p[c] == down then -1 else 0
  {
    assert Delta(p, c, c, up, down) == 0;
  }

  /** A further character of the same kind, or a comment. */
  lemma PartialGrows(p: string, a: nat, cmd: nat, at: nat, sym: Sym, value: int)
    requires Partial(p, a, cmd, at, sym, value) && at < |p|
    ensures SymOf(p[at]) == SymNone ==> Partial(p, a, cmd, at + 1, sym, value)
    ensures SymOf(p[at]) == sym && sym != SymNone ==> Partial(p, a, cmd, at + 1, sym, value + Direction(p[at]))
  {
  }

  /** The first character of a token. */
  lemma TokenStarts(p: string, a: nat, cmd: nat, at: nat, value: int)
    requires Partial(p, a, cmd, at, SymNone, value) && at < |p| && SymOf(p[at]) != SymNone
    ensures Growing(SymOf(p[at])) ==> Partial(p, a, at, at + 1, SymOf(p[at]), Direction(p[at]))
    ensures !Growing(SymOf(p[at])) ==> TokenRead(p, a, SymOf(p[at]), value, at, at + 1)
  {
    DeltaOne(p, at, '+', '-');
    DeltaOne(p, at, '>', '<');
  }

  /** A token ends where one of another kind starts, or with the program. */
  lemma TokenEnds(p: string, a: nat, cmd: nat, at: nat, sym: Sym, value: int)
    requires Partial(p, a, cmd, at, sym, value)
    ensures at <= |p| && Growing(sym)
    ensures sym != SymNone && (at < |p| ==> SymOf(p[at]) != SymNone && SymOf(p[at]) != sym) ==>
              TokenRead(p, a, sym, value, cmd, at)
    ensures sym == SymNone && at == |p| ==> TokenRead(p, a, SymEof, value, at, at)
  {
  }

  /** What was read beyond the last token is the start of this one, or all of it. */
  lemma TokenResumes(p: string, here: nat, at: nat, sym: Sym, value: int)
    requires Ahead(p, here, at, sym, value)
    ensures Growing(sym) ==> Partial(p, here, here, at, sym, value)
    ensures !Growing(sym) ==> TokenRead(p, here, sym, value, here, at) && Ahead(p, at, at, SymNone, 0)
  {
    if Growing(sym) && sym != SymNone {
      DeltaOne(p, here, '+', '-');
      DeltaOne(p, here, '>', '<');
    }
  }

  // ---------------------------------------------------------------- brackets seen so far

  /** d loops are open at `here`, and nothing was closed that had not been opened. */
  predicate DepthOk(p: string, here: nat, d: nat) {
    here <= |p| && Depth(p, here) == d && forall i :: 0 <= i <= here ==> Depth(p, i) >= 0
  }

  lemma {:induction false} PlainStretch(p: string, start: nat, a: nat, b: nat, d: nat)
    requires Skips(p, start, a) && DepthOk(p, a, d) && a <= b <= |p|
    requires forall i :: a <= i < b ==> p[i] != '[' && p[i] != ']'
    ensures Skips(p, start, b) && DepthOk(p, b, d)
    decreases b
  {
    if a < b {
      PlainStretch(p, start, a, b - 1, d);
      SkipsPlain(p, start, b - 1);
    }
  }

  lemma PlainToken(p: string, start: nat, a: nat, sym: Sym, cmd: nat, end: nat, d: nat)
    requires TokenIs(p, a, sym, cmd, end) && Skips(p, start, a) && DepthOk(p, a, d)
    ensures Skips(p, start, cmd) && DepthOk(p, cmd, d)
    ensures sym != SymLoop && sym != SymEndLoop ==> Skips(p, start, end) && DepthOk(p, end, d)
    ensures sym == SymLoop ==> DepthOk(p, end, d + 1)
    ensures sym == SymEndLoop && d > 0 ==> DepthOk(p, end, d - 1)
    ensures sym == SymEndLoop && d == 0 ==> Depth(p, end) < 0
  {
    TokenRange(p, a, sym, cmd, end);
    PlainStretch(p, start, a, cmd, d);
    if sym != SymLoop && sym != SymEndLoop {
      PlainStretch(p, start, a, end, d);
    }
  }

  // ---------------------------------------------------------------- open loops

  ghost predicate Marked(m: Places, open: seq<OpenLoop>) {
    forall k :: 0 <= k < |open| ==>
      open[k].at in m && m[open[k].at].sym == SymLoop && m[open[k].at].cmd == open[k].cmd
        && m[open[k].at].end == open[k].cmd + 1
  }

  lemma MarkedKept(m: Places, c: Code, c': Code, here: nat, sym: Sym, cmd: nat, end: nat, open: seq<OpenLoop>)
    requires here in m && c'.cur < |c'.blocks| && Marked(m, open) && !IsOpen(open, here) && end !in m
    ensures Marked(Advanced(m, c, c', here, sym, cmd, end), open)
  {
  }

  /** The code after one plain token. */
  function CommandCode(ly: Layout, c: Code, value: int, sym: Sym): Code
    requires c.cur < |c.blocks|
  {
    match sym
    case SymRead => ReadCode(c)
    case SymWrite => WriteCode(c)
    case SymMove => MoveCode(ly, c, value)
    case SymChange => ChangeCode(c, value)
    case _ => c
  }

  lemma CommandGrows(p: string, ly: Layout, c: Code, value: int, sym: Sym)
    requires c.cur < |c.blocks| && c.blocks[c.cur].term == Open
    ensures Grows(c.blocks, CommandCode(ly, c, value, sym).blocks)
  {
    match sym
    case SymRead => PutGrows(c, ReadInstrs(c.head, c.next), c.head, c.next + 2);
    case SymWrite => PutGrows(c, WriteInstrs(c.head, c.next), c.head, c.next + 2);
    case SymChange => PutGrows(c, ChangeInstrs(c.head, c.next, value), c.head, c.next + 2);
    case SymMove =>
      if ly.bounds {
        CheckedMoveShape(ly, c, value);
      } else {
        PutGrows(c, [Gep(c.next, c.head, Int32(value))], c.next, c.next + 1);
      }
    case _ =>
  }

  lemma CommandSsa(ly: Layout, c: Code, value: int, sym: Sym, open: seq<OpenLoop>)
    requires c.cur < |c.blocks| && Ssa(ly, c, open)
    ensures Ssa(ly, CommandCode(ly, c, value, sym), open)
  {
    hide Ssa, ReadCode, WriteCode, ChangeCode, MoveCode;
    match sym
    case SymRead => ReadSsa(ly, c, open);
    case SymWrite => WriteSsa(ly, c, open);
    case SymChange => ChangeSsa(ly, c, open, value);
    case SymMove => if ly.bounds { CheckedMoveSsa(ly, c, open, value); } else { PlainMoveSsa(ly, c, open, value); }
    case _ =>
  }

  lemma AdvancedFrames(ly: Layout, c: Code, c': Code, m: Places, here: nat, sym: Sym, cmd: nat, end: nat)
    requires Framed(ly, c, m) && Grows(c.blocks, c'.blocks) && here in m && c'.cur < |c'.blocks|
    requires (forall a :: a in m ==> a <= here) && here < end
    ensures Framed(ly, c', Advanced(m, c, c', here, sym, cmd, end))
  {
    AdvancedKeeps(m, c, c', here, sym, cmd, end);
    GrowsThen(HeaderCode(ly).blocks, c.blocks, c'.blocks);
    hide Grows;
  }

  lemma HeaderBlocks(ly: Layout, bs: seq<Block>)
    requires |bs| == if ly.bounds then 3 else 2
    requires bs[0] == Block(NoPhi, HeaderInstrs(ly), Open) && bs[1] == Block(NoPhi, [CallFree(ly.arr)], Ret)
    requires ly.bounds ==> bs[2] == Block(NoPhi, [CallPuts], Br(ly.end))
    ensures bs == HeaderCode(ly).blocks
  {
  }

  lemma DepthAt(p: string, a: nat, sym: Sym, cmd: nat, end: nat, d: nat)
    requires TokenIs(p, a, sym, cmd, end) && DepthOk(p, a, d) && sym == SymLoop
    ensures DepthOk(p, end, d + 1)
  {
    assert Skips(p, a, a);
    PlainToken(p, a, a, sym, cmd, end, d);
  }

  lemma LoopGrows(c: Code)
    requires c.cur < |c.blocks| && c.blocks[c.cur].term == Open
    ensures Grows(c.blocks, LoopCode(c).blocks)
  {
    LoopShape(c);
  }

  lemma MarkedNew(m: Places, c: Code, c': Code, here: nat, cmd: nat, open: seq<OpenLoop>, l: OpenLoop)
    requires here in m && c'.cur < |c'.blocks| && here <= cmd && l.at == here && l.cmd == cmd
    requires Marked(Advanced(m, c, c', here, SymLoop, cmd, cmd + 1), open)
    ensures Marked(Advanced(m, c, c', here, SymLoop, cmd, cmd + 1), open + [l])
  {
  }

  lemma LastPending(p: string, ly: Layout, c: Code, m: Places, open: seq<OpenLoop>, l: OpenLoop)
    requires LoopsPending(p, ly, c, m, open + [l]) && Marked(m, open + [l])
    ensures LoopPending(p, ly, c, m, l) && l.test < |c.blocks| && l.test != c.cur && c.blocks[l.test].phi.Phi?
    ensures c.blocks[l.test] == Block(Phi(l.phi, [(l.from, l.head)]), [], Open)
    ensures l.at in m && m[l.at].sym == SymLoop && m[l.at].cmd == l.cmd && m[l.at].end == l.cmd + 1
    ensures Marked(m, open) && forall k :: 0 <= k < |open| ==> open[k].at != l.at
  {
    var all := open + [l];
    assert all[|open|] == l && forall k :: 0 <= k < |open| ==> all[k] == open[k];
  }

  lemma EndGrows(c: Code, test: Label, body: Label, phi: Reg, from: Label, head: Reg)
    requires c.cur < |c.blocks| && c.blocks[c.cur].term == Open && test < |c.blocks| && test != c.cur
    requires c.blocks[test] == Block(Phi(phi, [(from, head)]), [], Open)
    ensures Grows(c.blocks, EndCode(c, test, body, phi).blocks)
  {
    EndShape(c, test, body, phi, from, head);
  }

  lemma ClosedFrames(ly: Layout, c: Code, c': Code, m: Places, here: nat, q: nat, l: OpenLoop)
    requires Framed(ly, c, m) && Grows(c.blocks, c'.blocks) && here in m && l.at in m && c'.cur < |c'.blocks|
    requires (forall a :: a in m ==> a <= here) && here <= q
    ensures Framed(ly, c', Closed(m, c, c', here, q, l))
  {
    var m1 := m[l.at := m[l.at].(reg := c.next)];
    AdvancedKeeps(m1, c, c', here, SymEndLoop, q, q + 1);
    GrowsThen(HeaderCode(ly).blocks, c.blocks, c'.blocks);
    hide Grows;
  }

  lemma ClosedMarked(m: Places, c: Code, c': Code, here: nat, q: nat, open: seq<OpenLoop>, l: OpenLoop)
    requires here in m && l.at in m && c'.cur < |c'.blocks| && Marked(m, open) && !IsOpen(open + [l], here)
    requires (forall a :: a in m ==> a <= here) && here <= q && forall k :: 0 <= k < |open| ==> open[k].at != l.at
    ensures Marked(Closed(m, c, c', here, q, l), open)
  {
    IsOpenMore(open, l);
    assert !IsOpen(open, here);
  }

  /** Some ']' has no '[' before it. */
  predicate ClosesTooMuch(p: string) {
    exists i :: 0 <= i <= |p| && Depth(p, i) < 0
  }

  lemma EndAfter(p: string, a: nat, cmd: nat, end: nat)
    requires TokenIs(p, a, SymLoop, cmd, end) || TokenIs(p, a, SymEndLoop, cmd, end)
    ensures end == cmd + 1 && a <= cmd < |p|
  {
  }

  lemma SkipsNone(p: string, a: nat)
    requires a <= |p|
    ensures Skips(p, a, a)
  {
  }

  lemma TooMuch(p: string, start: nat, a: nat, cmd: nat, end: nat)
    requires TokenIs(p, a, SymEndLoop, cmd, end) && Skips(p, start, a) && DepthOk(p, a, 0)
    ensures ClosesTooMuch(p)
  {
    PlainToken(p, start, a, SymEndLoop, cmd, end, 0);
    TokenRange(p, a, SymEndLoop, cmd, end);
  }

  lemma AtTheEnd(p: string, start: nat, a: nat, cmd: nat, end: nat, d: nat)
    requires TokenIs(p, a, SymEof, cmd, end) && Skips(p, start, a) && DepthOk(p, a, d)
    ensures Depth(p, |p|) == d && (d == 0 ==> Balanced(p)) && TokenIs(p, a, SymEof, |p|, |p|)
  {
    PlainToken(p, start, a, SymEof, cmd, end, d);
  }

  lemma CurrentBlock(p: string, ly: Layout, c: Code, m: Places, open: seq<OpenLoop>, here: nat)
    requires Building(p, ly, c, m, open, here)
    ensures c.cur < |c.blocks| && here in m
  {
  }

  lemma HeaderFramed(ly: Layout)
    ensures var c := HeaderCode(ly); Framed(ly, c, map[0 := Here(c)])
  {
  }

  ghost predicate BelongsTo(lp: Enclosing, open: seq<OpenLoop>) {
    if open == [] then lp == TopLevel
    else lp == InLoop(open[|open| - 1].phi, open[|open| - 1].body, open[|open| - 1].test)
  }

  /** Where the current nesting level starts. */
  ghost function LevelStart(open: seq<OpenLoop>): nat {
    if open == [] then 0 else open[|open| - 1].cmd + 1
  }

  class BrainF {
    const input: string
    const ly: Layout
    var at: nat
    var blocks: seq<Block>
    var insert: Label
    var curhead: Reg
    var next: Reg
    ghost var places: Places

    constructor (program: string, mem: nat, bounds: bool)
      ensures input == program && ly == Layout(bounds, mem) && at == 0
      ensures Now() == Code([], 0, 0, 0)
    {
      input, ly, at := program, Layout(bounds, mem), 0;
      blocks, insert, curhead, next, places := [], 0, 0, 0, map[];
    }

    ghost function Now(): Code
      reads this`blocks, this`insert, this`curhead, this`next
    {
      Code(blocks, insert, curhead, next)
    }

    method NewReg() returns (r: Reg)
      modifies this`next
      ensures r == old(next) && next == r + 1
    {
      r := next;
      next := next + 1;
    }

    method NewBlock() returns (b: Label)
      modifies this`blocks
      ensures b == |old(blocks)| && blocks == old(blocks) + [Block(NoPhi, [], Open)]
    {
      b := |blocks|;
      blocks := blocks + [Block(NoPhi, [], Open)];
    }

    method EmitTo(b: Label, i: Instr)
      requires b < |blocks|
      modifies this`blocks
      ensures blocks == old(blocks)[b := old(blocks)[b].(body := old(blocks)[b].body + [i])]
    {
      blocks := blocks[b := blocks[b].(body := blocks[b].body + [i])];
    }

    method Terminate(b: Label, t: Term)
      requires b < |blocks|
      modifies this`blocks
      ensures blocks == old(blocks)[b := old(blocks)[b].(term := t)]
    {
      blocks := blocks[b := blocks[b].(term := t)];
    }

    /** The header: the entry block up to the first head, the end block, the error block. */
    method Header()
      requires blocks == [] && insert == 0 && next == 0
      modifies this`blocks, this`insert, this`curhead, this`next
      ensures Now() == HeaderCode(ly)
    {
      insert := NewBlock();
      var arr := NewReg();
      EmitTo(insert, Malloc(arr));
      EmitTo(insert, Memset(arr, ly.mem));
      if ly.bounds {
        var arrmax := NewReg();
        EmitTo(insert, Gep(arrmax, arr, ly.mem));
      }
      curhead := NewReg();
      EmitTo(insert, Gep(curhead, arr, ly.mem / 2));
      assert blocks[0].body == HeaderInstrs(ly);
      var endbb := NewBlock();
      EmitTo(endbb, CallFree(arr));
      Terminate(endbb, Ret);
      if ly.bounds {
        var aberrorbb := NewBlock();
        EmitTo(aberrorbb, CallPuts);
        Terminate(aberrorbb, Br(endbb));
      }
      HeaderBlocks(ly, blocks);
    }

    method EmitRead()
      requires insert < |blocks|
      modifies this`blocks, this`next
      ensures Now() == ReadCode(old(Now()))
    {
      var t0 := NewReg();
      EmitTo(insert, CallGetChar(t0));
      var t1 := NewReg();
      EmitTo(insert, Trunc(t1, t0));
      EmitTo(insert, Store(t1, curhead));
      assert blocks[insert].body == old(blocks)[insert].body + ReadInstrs(curhead, t0);
    }

    method EmitWrite()
      requires insert < |blocks|
      modifies this`blocks, this`next
      ensures Now() == WriteCode(old(Now()))
    {
      var t0 := NewReg();
      EmitTo(insert, Load(t0, curhead));
      var t1 := NewReg();
      EmitTo(insert, SExt(t1, t0));
      EmitTo(insert, CallPutChar(t1));
      assert blocks[insert].body == old(blocks)[insert].body + WriteInstrs(curhead, t0);
    }

    method EmitChange(value: int)
      requires insert < |blocks|
      modifies this`blocks, this`next
      ensures Now() == ChangeCode(old(Now()), value)
    {
      var t0 := NewReg();
      EmitTo(insert, Load(t0, curhead));
      var t1 := NewReg();
      EmitTo(insert, AddConst(t1, t0, value % 256));
      EmitTo(insert, Store(t1, curhead));
      assert blocks[insert].body == old(blocks)[insert].body + ChangeInstrs(curhead, t0, value);
    }

    method EmitMove(value: int)
      requires insert < |blocks|
      modifies this`blocks, this`next, this`curhead, this`insert
      ensures Now() == MoveCode(ly, old(Now()), value)
    {
      var h := NewReg();
      EmitTo(insert, Gep(h, curhead, Int32(value)));
      curhead := h;
      if ly.bounds {
        var test0 := NewReg();
        EmitTo(insert, CmpUge(test0, curhead, ly.arrmax));
        var test1 := NewReg();
        EmitTo(insert, CmpUlt(test1, curhead, ly.arr));
        var test2 := NewReg();
        EmitTo(insert, OrBits(test2, test0, test1));
        assert blocks[insert].body
          == old(blocks)[insert].body + ([Gep(h, old(curhead), Int32(value))] + CheckInstrs(ly, h));
        var nextbb := NewBlock();
        Terminate(insert, CondBr(test2, ly.aberror, nextbb));
        insert := nextbb;
      }
    }

    /** The start of a loop: the test block with half a phi, and the block for the body. */
    method StartLoop() returns (phi: Reg, oldbb: Label, testbb: Label)
      requires insert < |blocks|
      modifies this`blocks, this`next, this`curhead, this`insert
      ensures Now() == LoopCode(old(Now()))
      ensures phi == old(next) && testbb == |old(blocks)| && oldbb == testbb + 1
    {
      testbb := NewBlock();
      Terminate(insert, Br(testbb));
      var bb0 := insert;
      oldbb := NewBlock();
      insert := oldbb;
      phi := NewReg();
      blocks := blocks[testbb := blocks[testbb].(phi := Phi(phi, [(bb0, curhead)]))];
      curhead := phi;
    }

    /** The end of a loop: finish the test block; code goes on in a new block with a phi of its own. */
    method FinishLoop(phi: Reg, oldbb: Label, testbb: Label)
      requires insert < |blocks| && testbb < |blocks| && blocks[testbb].phi.Phi? && testbb != insert
      modifies this`blocks, this`next, this`curhead, this`insert
      ensures Now() == EndCode(old(Now()), testbb, oldbb, phi)
    {
      Terminate(insert, Br(testbb));
      var phiTest := blocks[testbb].phi;
      blocks := blocks[testbb := blocks[testbb].(phi := phiTest.(incoming := phiTest.incoming + [(insert, curhead)]))];
      var tape0 := NewReg();
      EmitTo(testbb, Load(tape0, phi));
      var test0 := NewReg();
      EmitTo(testbb, IsZero(test0, tape0));
      var bb0 := NewBlock();
      Terminate(testbb, CondBr(test0, bb0, oldbb));
      insert := bb0;
      var phi1 := NewReg();
      blocks := blocks[bb0 := blocks[bb0].(phi := Phi(phi1, [(testbb, phi)]))];
      curhead := phi1;
      assert blocks[testbb].body == old(blocks)[testbb].body + TestInstrs(phi, tape0);
    }

    /** Complete the current token, a maximal run: it ends at a character of another kind, which is kept
        for the next, or at the end of the input. */
    method ReadToken(ghost here: nat, sym0: Sym, value0: int)
      returns (cursym: Sym, curvalue: int, nextsym: Sym, nextvalue: int, ghost cmd: nat, ghost end: nat)
      requires at <= |input| && Ahead(input, here, at, sym0, value0)
      modifies this`at
      ensures at <= |input| && TokenRead(input, here, cursym, curvalue, cmd, end)
              && Ahead(input, end, at, nextsym, nextvalue)
      ensures cursym == SymLoop || cursym == SymEndLoop ==> nextsym == SymNone
      ensures cursym != SymNone && (Growing(cursym) ==> nextsym != SymNone && nextsym != cursym)
    {
      hide Depth, Partial, TokenRead, TokenIs, Delta;
      cursym, curvalue, nextsym, nextvalue := sym0, value0, SymNone, 0;
      cmd, end := here, at;
      TokenResumes(input, here, at, sym0, value0);
      var loop := Growing(cursym);
      while loop
        invariant here <= at <= |input|
        invariant loop ==> Partial(input, here, cmd, at, cursym, curvalue) && nextsym == SymNone
        invariant !loop ==>
                    TokenRead(input, here, cursym, curvalue, cmd, end) && Ahead(input, end, at, nextsym, nextvalue)
        invariant !loop && (cursym == SymLoop || cursym == SymEndLoop) ==> nextsym == SymNone
        invariant !loop ==> cursym != SymNone && (Growing(cursym) ==> nextsym != SymNone && nextsym != cursym)
        decreases loop, |input| - at
      {
        TokenEnds(input, here, cmd, at, cursym, curvalue);
        if at == |input| {
          if cursym == SymNone {
            cursym := SymEof;
            cmd := at;
          } else {
            nextsym := SymEof;
          }
          end := at;
          loop := false;
        } else {
          var c := input[at];
          var sym := SymOf(c);
          PartialGrows(input, here, cmd, at, cursym, curvalue);
          at := at + 1;
          if sym != SymNone {
            if cursym == sym {
              curvalue := curvalue + Direction(c);
            } else if cursym == SymNone {
              TokenStarts(input, here, cmd, at - 1, curvalue);
              cursym, cmd := sym, at - 1;
              if Growing(sym) { curvalue := Direction(c); } else { loop := false; }
              end := at;
            } else {
              nextsym := sym;
              if Growing(sym) { nextvalue := Direction(c); }
              end := at - 1;
              loop := false;
            }
          }
        }
      }
    }

    /** Everything known between two tokens, with code going on for position `here`. */
    ghost predicate Ready(open: seq<OpenLoop>, here: nat)
      reads this`blocks, this`insert, this`curhead, this`next, this`places
    {
      && Building(input, ly, Now(), places, open, here) && Framed(ly, Now(), places)
      && Marked(places, open) && DepthOk(input, here, |open|) && Ssa(ly, Now(), open)
    }

    /** One token that is not a bracket. */
    method EmitPlain(ghost open: seq<OpenLoop>, ghost start: nat, ghost here: nat, sym: Sym, value: int,
                     ghost cmd: nat, ghost end: nat)
      requires Ready(open, here) && Skips(input, start, here) && TokenRead(input, here, sym, value, cmd, end)
      requires sym == SymRead || sym == SymWrite || sym == SymMove || sym == SymChange
      modifies this`blocks, this`insert, this`curhead, this`next, this`places
      ensures Ready(open, end) && Skips(input, start, end) && here < end
    {
      hide Placed, LoopPending, AllPlaced, LoopsPending, Grows, KeepsPlaces, Framed, Marked, Skips, Depth, TokenIs,
           DepthOk;
      hide ReadCode, WriteCode, ChangeCode, MoveCode, Advanced, IsOpen, Delta, Ssa;
      ghost var c, m := Now(), places;
      PlainToken(input, start, here, sym, cmd, end, |open|);
      TokenRange(input, here, sym, cmd, end);
      match sym {
        case SymRead =>
          ReadBuilds(input, ly, c, m, open, here, cmd, end);
          EmitRead();
        case SymWrite =>
          WriteBuilds(input, ly, c, m, open, here, cmd, end);
          EmitWrite();
        case SymMove =>
          MoveBuilds(input, ly, c, m, open, here, cmd, end);
          EmitMove(value);
        case SymChange =>
          ChangeBuilds(input, ly, c, m, open, here, cmd, end);
          EmitChange(value);
      }
      CommandGrows(input, ly, c, value, sym);
      CommandSsa(ly, c, value, sym, open);
      places := Advanced(m, c, Now(), here, sym, cmd, end);
      AdvancedFrames(ly, c, Now(), m, here, sym, cmd, end);
      MarkedKept(m, c, Now(), here, sym, cmd, end, open);
    }

    /** A '[': the blocks of a new loop. */
    method OpenLoopAt(ghost open: seq<OpenLoop>, ghost here: nat, ghost cmd: nat)
      returns (phi: Reg, oldbb: Label, testbb: Label, ghost l: OpenLoop)
      requires Ready(open, here) && TokenIs(input, here, SymLoop, cmd, cmd + 1)
      modifies this`blocks, this`insert, this`curhead, this`next, this`places
      ensures Ready(open + [l], cmd + 1) && l.cmd == cmd < |input| && here <= cmd && input[cmd] == '['
      ensures phi == l.phi && oldbb == l.body && testbb == l.test
    {
      hide Placed, LoopPending, AllPlaced, LoopsPending, Grows, KeepsPlaces, Framed, Skips, Depth, DepthOk, Advanced,
           IsOpen, LoopCode, Ssa;
      ghost var c, m := Now(), places;
      l := OpenLoop(here, cmd, insert, curhead, |blocks|, |blocks| + 1, next);
      LoopBuilds(input, ly, c, m, open, here, cmd);
      DepthAt(input, here, SymLoop, cmd, cmd + 1, |open|);
      LoopGrows(c);
      LoopSsa(ly, c, open, l);
      phi, oldbb, testbb := StartLoop();
      places := Advanced(m, c, Now(), here, SymLoop, cmd, cmd + 1);
      AdvancedFrames(ly, c, Now(), m, here, SymLoop, cmd, cmd + 1);
      MarkedKept(m, c, Now(), here, SymLoop, cmd, cmd + 1, open);
      MarkedNew(m, c, Now(), here, cmd, open, l);
    }

    /** A ']': the rest of the innermost loop. */
    method CloseLoop(phi: Reg, oldbb: Label, testbb: Label, ghost open: seq<OpenLoop>, ghost l: OpenLoop,
                     ghost here: nat, ghost q: nat)
      requires Ready(open + [l], here) && TokenIs(input, here, SymEndLoop, q, q + 1) && Skips(input, l.cmd + 1, here)
      requires phi == l.phi && oldbb == l.body && testbb == l.test
      modifies this`blocks, this`insert, this`curhead, this`next, this`places
      ensures Ready(open, q + 1) && Skips(input, l.cmd + 1, q) && q < |input| && input[q] == ']'
    {
      hide Placed, AllPlaced, Grows, KeepsPlaces, Framed, Skips, Depth, DepthOk, Advanced, IsOpen, EndCode,
           LoopPending, Ssa;
      ghost var c, m := Now(), places;
      ghost var all := open + [l];
      PlainToken(input, l.cmd + 1, here, SymEndLoop, q, q + 1, |all|);
      LastPending(input, ly, c, m, open, l);
      EndBuilds(input, ly, c, m, open, here, q, l);
      EndGrows(c, l.test, l.body, l.phi, l.from, l.head);
      EndSsa(ly, c, open, l);
      FinishLoop(phi, oldbb, testbb);
      places := Closed(m, c, Now(), here, q, l);
      ClosedFrames(ly, c, Now(), m, here, q, l);
      ClosedMarked(m, c, Now(), here, q, open, l);
    }

    /** BrainF::readloop: read and emit until the loop, or the program, ends. */
    method ReadLoop(lp: Enclosing, ghost open: seq<OpenLoop>, ghost here0: nat)
      returns (err: ParseError, ghost here: nat)
      requires Ready(open, here0) && at == here0 <= |input| && BelongsTo(lp, open)
               && Skips(input, LevelStart(open), here0)
      modifies this`at, this`blocks, this`insert, this`curhead, this`next, this`places
      ensures at <= |input|
      ensures err == NoError && open != [] ==>
                here0 < here == at && Ready(open[..|open| - 1], here) && here - 1 < |input|
                && input[here - 1] == ']' && Skips(input, LevelStart(open), here - 1)
      ensures err == NoError && open == [] ==>
                Complete(input, ly, blocks, places) && WellFormed(blocks) && Balanced(input)
      ensures err == ExtraClose ==> ClosesTooMuch(input)
      ensures err == MissingClose ==> Depth(input, |input|) > 0
      decreases |input| - here0
    {
      hide Placed, Building, Framed, Marked, Skips, Depth, DepthOk, TokenIs, Complete, Balanced, ClosesTooMuch, Ssa,
           WellFormed;
      here := here0;
      ghost var start := LevelStart(open);
      var cursym, curvalue, nextsym, nextvalue := SymNone, 0, SymNone, 0;
      ghost var cmd: nat, end: nat := here, here;
      while cursym != SymEof && cursym != SymEndLoop
        invariant Ready(open, here) && Skips(input, start, here) && at <= |input| && here0 <= here <= |input|
        invariant if cursym == SymNone then end == here else TokenRead(input, here, cursym, curvalue, cmd, end)
        invariant Ahead(input, end, at, nextsym, nextvalue)
        invariant cursym == SymNone || cursym == SymLoop || cursym == SymEndLoop ==> nextsym == SymNone
        decreases |input| - here, cursym == SymNone
      {
        if cursym == SymLoop {
          TokenRange(input, here, cursym, cmd, end);
          PlainToken(input, start, here, cursym, cmd, end, |open|);
          EndAfter(input, here, cmd, end);
          var phi, oldbb, testbb;
          ghost var l;
          phi, oldbb, testbb, l := OpenLoopAt(open, here, cmd);
          SkipsNone(input, cmd + 1);
          ghost var q;
          err, q := ReadLoop(InLoop(phi, oldbb, testbb), open + [l], cmd + 1);
          if err != NoError {
            return;
          }
          assert (open + [l])[..|open|] == open;
          SkipsLoop(input, start, cmd, q - 1);
          here, end := q, q;
        } else if cursym != SymNone {
          EmitPlain(open, start, here, cursym, curvalue, cmd, end);
          here := end;
        }
        cursym, curvalue := nextsym, nextvalue;
        cursym, curvalue, nextsym, nextvalue, cmd, end := ReadToken(here, cursym, curvalue);
      }
      if cursym == SymEndLoop {
        EndAfter(input, here, cmd, end);
        if lp == TopLevel {
          TooMuch(input, start, here, cmd, end);
          return ExtraClose, here;
        }
        ghost var l := open[|open| - 1];
        assert open == open[..|open| - 1] + [l];
        CloseLoop(lp.phi, lp.oldbb, lp.testbb, open[..|open| - 1], l, here, cmd);
        return NoError, end;
      }
      AtTheEnd(input, start, here, cmd, end, |open|);
      ghost var c, m := Now(), places;
      CurrentBlock(input, ly, c, m, open, here);
      Terminate(insert, Br(ly.end));
      if lp != TopLevel {
        return MissingClose, here;
      }
      FinishComplete(input, ly, c, m, here);
      FinishSsa(ly, c);
      places := m[here := m[here].(reg := c.next, sym := SymEof, cmd := |input|, end := |input|)];
      err := NoError;
    }

    /** BrainF::parse: succeeds exactly if the brackets balance; then the blocks are the compiled program. */
    method Parse() returns (err: ParseError)
      requires Now() == Code([], 0, 0, 0) && at == 0
      modifies this
      ensures err == NoError <==> Balanced(input)
      ensures err == NoError ==> Complete(input, ly, blocks, places) && WellFormed(blocks)
      ensures err == ExtraClose ==> ClosesTooMuch(input)
      ensures err == MissingClose ==> Depth(input, |input|) > 0
    {
      hide Placed, Building, Framed, Skips, Complete, Ssa, WellFormed;
      Header();
      ghost var c := Now();
      places := map[0 := Here(c)];
      HeaderBuilds(input, ly);
      HeaderFramed(ly);
      HeaderSsa(ly);
      SkipsNone(input, 0);
      ghost var here;
      err, here := ReadLoop(TopLevel, [], 0);
    }
  }
}
