// The code under construction, the steps by which the compiler extends it, and where in it each
// position of the source program has ended up.
module BrainFCode {
  import opened BrainFLanguage
  import opened BrainFIr

  /** What header fixes: whether heads are checked, the tape size, and the special blocks. */
  datatype Layout = Layout(bounds: bool, mem: nat)
  {
    const arr: Reg := 0
    const arrmax: Reg := 1
    const first: Reg := if bounds then 2 else 1
    const end: Label := 1
    const aberror: Label := 2
  }

  /** The blocks so far, the one being filled, the register that holds the head, and the next register. */
  datatype Code = Code(blocks: seq<Block>, cur: Label, head: Reg, next: Reg)

  datatype Sym = SymNone | SymRead | SymWrite | SymMove | SymChange | SymLoop | SymEndLoop | SymEof

  // ---------------------------------------------------------------- instruction sequences

  /** An int passed as a 32-bit constant. */
  function Int32(v: int): int {
    (v + 0x8000_0000) % 0x1_0000_0000 - 0x8000_0000
  }

  function ChangeInstrs(head: Reg, r: Reg, k: int): seq<Instr> {
    [Load(r, head), AddConst(r + 1, r, k % 256), Store(r + 1, head)]
  }

  function ReadInstrs(head: Reg, r: Reg): seq<Instr> {
    [CallGetChar(r), Trunc(r + 1, r), Store(r + 1, head)]
  }

  function WriteInstrs(head: Reg, r: Reg): seq<Instr> {
    [Load(r, head), SExt(r + 1, r), CallPutChar(r + 1)]
  }

  function CheckInstrs(ly: Layout, r: Reg): seq<Instr> {
    [CmpUge(r + 1, r, ly.arrmax), CmpUlt(r + 2, r, ly.arr), OrBits(r + 3, r + 1, r + 2)]
  }

  function TestInstrs(phi: Reg, r: Reg): seq<Instr> {
    [Load(r, phi), IsZero(r + 1, r)]
  }

  function HeaderInstrs(ly: Layout): seq<Instr> {
    [Malloc(ly.arr), Memset(ly.arr, ly.mem)]
    + (if ly.bounds then [Gep(ly.arrmax, ly.arr, ly.mem)] else [])
    + [Gep(ly.first, ly.arr, ly.mem / 2)]
  }

  // ---------------------------------------------------------------- steps

  function Append(c: Code, b: Label, instrs: seq<Instr>): seq<Block>
    requires b < |c.blocks|
  {
    c.blocks[b := c.blocks[b].(body := c.blocks[b].body + instrs)]
  }

  function Put(c: Code, instrs: seq<Instr>, head: Reg, next: Reg): Code
    requires c.cur < |c.blocks|
  {
    c.(blocks := Append(c, c.cur, instrs), head := head, next := next)
  }

  /** The code after the header: entry, end and, with bounds checks, error block. */
  function HeaderCode(ly: Layout): Code {
    Code([Block(NoPhi, HeaderInstrs(ly), Open), Block(NoPhi, [CallFree(ly.arr)], Ret)]
         + (if ly.bounds then [Block(NoPhi, [CallPuts], Br(ly.end))] else []),
         0, ly.first, ly.first + 1)
  }

  function ChangeCode(c: Code, k: int): Code
    requires c.cur < |c.blocks|
  {
    Put(c, ChangeInstrs(c.head, c.next, k), c.head, c.next + 2)
  }

  function ReadCode(c: Code): Code
    requires c.cur < |c.blocks|
  {
    Put(c, ReadInstrs(c.head, c.next), c.head, c.next + 2)
  }

  function WriteCode(c: Code): Code
    requires c.cur < |c.blocks|
  {
    Put(c, WriteInstrs(c.head, c.next), c.head, c.next + 2)
  }

  function MoveCode(ly: Layout, c: Code, k: int): Code
    requires c.cur < |c.blocks|
  {
    if ly.bounds then
      var d := Put(c, [Gep(c.next, c.head, Int32(k))] + CheckInstrs(ly, c.next), c.next, c.next + 4);
      Code(d.blocks[c.cur := d.blocks[c.cur].(term := CondBr(c.next + 3, ly.aberror, |c.blocks|))]
          + [Block(NoPhi, [], Open)],
           |c.blocks|, c.next, c.next + 4)
    else
      Put(c, [Gep(c.next, c.head, Int32(k))], c.next, c.next + 1)
  }

  /** The start of a loop: the test block with half a phi, and the block for the body. */
  function LoopCode(c: Code): Code
    requires c.cur < |c.blocks|
  {
    var test, body := |c.blocks|, |c.blocks| + 1;
    Code(c.blocks[c.cur := c.blocks[c.cur].(term := Br(test))]
         + [Block(Phi(c.next, [(c.cur, c.head)]), [], Open), Block(NoPhi, [], Open)],
         body, c.next, c.next + 1)
  }

  /** The end of a loop: finish its test block, go on in a new block. */
  function EndCode(c: Code, test: Label, body: Label, phi: Reg): Code
    requires c.cur < |c.blocks| && test < |c.blocks| && c.blocks[test].phi.Phi? && test != c.cur
  {
    var exit := |c.blocks|;
    var bs := c.blocks[c.cur := c.blocks[c.cur].(term := Br(test))];
    var t := Block(bs[test].phi.(incoming := bs[test].phi.incoming + [(c.cur, c.head)]),
                   bs[test].body + TestInstrs(phi, c.next), CondBr(c.next + 1, exit, body));
    Code(bs[test := t] + [Block(Phi(c.next + 2, [(test, phi)]), [], Open)], exit, c.next + 2, c.next + 3)
  }

  function FinishCode(ly: Layout, c: Code): Code
    requires c.cur < |c.blocks|
  {
    c.(blocks := c.blocks[c.cur := c.blocks[c.cur].(term := Br(ly.end))])
  }

  // ---------------------------------------------------------------- tokens

  /** From a on, comments and then one token whose command starts at `cmd` and that ends at `end`. */
  predicate TokenIs(p: string, a: nat, sym: Sym, cmd: nat, end: nat) {
    match sym
    case SymNone => false
    case SymChange => Stretch(p, a, cmd, end, '+', '-')
    case SymMove => Stretch(p, a, cmd, end, '>', '<') && RunEnds(p, end)
    case SymRead => CommandAt(p, a, cmd, end, ',')
    case SymWrite => CommandAt(p, a, cmd, end, '.')
    case SymLoop => CommandAt(p, a, cmd, end, '[')
    case SymEndLoop => CommandAt(p, a, cmd, end, ']')
    case SymEof => Comments(p, a, |p|) && cmd == end == |p|
  }

  predicate CommandAt(p: string, a: nat, cmd: nat, end: nat, c: char) {
    Comments(p, a, cmd) && cmd < |p| && p[cmd] == c && end == cmd + 1
  }

  function TokenValue(p: string, sym: Sym, cmd: nat, end: nat): int
    requires cmd <= end <= |p|
  {
    if sym == SymChange then Delta(p, cmd, end, '+', '-')
    else if sym == SymMove then Delta(p, cmd, end, '>', '<')
    else 0
  }

  lemma TokenRange(p: string, a: nat, sym: Sym, cmd: nat, end: nat)
    requires TokenIs(p, a, sym, cmd, end)
    ensures a <= cmd <= end <= |p| && (sym != SymEof ==> cmd < end)
  {
  }

  // ---------------------------------------------------------------- positions

  /** Where the code for the source from some position on starts, and the token found there. */
  datatype Pos = Pos(block: Label, idx: nat, head: Reg, reg: Reg, sym: Sym, cmd: nat, end: nat)

  type Places = map<nat, Pos>

  predicate IsAt(m: Places, a: nat, block: Label, idx: nat, head: Reg) {
    a in m && m[a].block == block && m[a].idx == idx && m[a].head == head
  }

  predicate HasInstrs(body: seq<Instr>, idx: nat, instrs: seq<Instr>) {
    idx + |instrs| <= |body| && body[idx..idx + |instrs|] == instrs
  }

  /** The first entry for `from` is r. */
  predicate Feeds(incoming: seq<(Label, Reg)>, from: Label, r: Reg) {
    incoming != [] && (if incoming[0].0 == from then incoming[0].1 == r else Feeds(incoming[1..], from, r))
  }

  /** The test block of the loop whose '[' is at o, its body and its exit. */
  predicate LoopPlaced(p: string, bs: seq<Block>, m: Places, o: nat, test: Label, r: Reg) {
    && o < |p| && test < |bs| && bs[test].phi.Phi? && bs[test].term.CondBr? && bs[test].phi.dst < r
    && bs[test].body == TestInstrs(bs[test].phi.dst, r) && bs[test].term.cond == r + 1
    && bs[test].term.yes < |bs| && bs[test].term.no < |bs|
    && IsAt(m, o + 1, bs[test].term.no, 0, bs[test].phi.dst) && bs[bs[test].term.no].phi == NoPhi
    && ScanClose(p, o + 1, 0) < |p| && bs[bs[test].term.yes].phi.Phi?
    && IsAt(m, ScanClose(p, o + 1, 0) + 1, bs[test].term.yes, 0, bs[bs[test].term.yes].phi.dst)
    && Feeds(bs[bs[test].term.yes].phi.incoming, test, bs[test].phi.dst)
    && r < bs[bs[test].term.yes].phi.dst
  }

  /** What the code at a position does, and which position it leads to. */
  predicate Placed(p: string, ly: Layout, bs: seq<Block>, m: Places, a: nat)
    requires a in m
  {
    var x := m[a];
    && TokenIs(p, a, x.sym, x.cmd, x.end) && x.block < |bs| && ly.first <= x.head < x.reg
    && var body, term := bs[x.block].body, bs[x.block].term;
    match x.sym
    case SymNone => false
    case SymChange =>
      && x.cmd < x.end <= |p| && HasInstrs(body, x.idx, ChangeInstrs(x.head, x.reg, Delta(p, x.cmd, x.end, '+', '-')))
      && IsAt(m, x.end, x.block, x.idx + 3, x.head)
    case SymRead => HasInstrs(body, x.idx, ReadInstrs(x.head, x.reg)) && IsAt(m, x.end, x.block, x.idx + 3, x.head)
    case SymWrite => HasInstrs(body, x.idx, WriteInstrs(x.head, x.reg)) && IsAt(m, x.end, x.block, x.idx + 3, x.head)
    case SymMove =>
      && x.cmd < x.end <= |p| && HasInstrs(body, x.idx, [Gep(x.reg, x.head, Int32(Delta(p, x.cmd, x.end, '>', '<')))])
      && (if ly.bounds then
            && |bs| > 2 && HasInstrs(body, x.idx + 1, CheckInstrs(ly, x.reg)) && x.idx + 4 == |body|
            && term.CondBr? && term.cond == x.reg + 3 && term.yes == ly.aberror
            && term.no < |bs| && bs[term.no].phi == NoPhi && IsAt(m, x.end, term.no, 0, x.reg)
          else
            IsAt(m, x.end, x.block, x.idx + 1, x.reg))
    case SymLoop =>
      && term.Br? && x.idx == |body| && x.cmd < |p| && LoopPlaced(p, bs, m, x.cmd, term.to, x.reg)
      && Feeds(bs[term.to].phi.incoming, x.block, x.head)
    case SymEndLoop =>
      && term.Br? && x.idx == |body| && x.cmd < |p| && ScanOpen(p, x.cmd, 0) < |p|
      && LoopPlaced(p, bs, m, ScanOpen(p, x.cmd, 0), term.to, x.reg)
      && Feeds(bs[term.to].phi.incoming, x.block, x.head)
    case SymEof => term == Br(ly.end) && x.idx == |body|
  }

  // ---------------------------------------------------------------- growing code

  predicate PhiGrows(f: Phi, f': Phi) {
    if f.NoPhi? then f' == f else f'.Phi? && f'.dst == f.dst && f.incoming <= f'.incoming
  }

  /** Blocks only gain instructions, a terminator, and phi entries; finished ones stay as they are. */
  predicate Grows(bs: seq<Block>, bs': seq<Block>) {
    && |bs| <= |bs'|
    && forall b :: 0 <= b < |bs| ==>
      && bs[b].body <= bs'[b].body && PhiGrows(bs[b].phi, bs'[b].phi)
      && (bs[b].term != Open ==> bs'[b].term == bs[b].term && bs'[b].body == bs[b].body)
  }

  predicate KeepsPlaces(m: Places, m': Places) {
    forall a :: a in m ==> IsAt(m', a, m[a].block, m[a].idx, m[a].head)
  }

  lemma {:induction false} FeedsMore(inc: seq<(Label, Reg)>, inc': seq<(Label, Reg)>, from: Label, r: Reg)
    requires Feeds(inc, from, r) && inc <= inc'
    ensures Feeds(inc', from, r)
    decreases |inc|
  {
    assert inc'[0] == inc[0] && inc[1..] <= inc'[1..];
    if inc[0].0 != from {
      FeedsMore(inc[1..], inc'[1..], from, r);
    }
  }

  lemma {:induction false} FeedsIncoming(inc: seq<(Label, Reg)>, from: Label, r: Reg)
    requires Feeds(inc, from, r)
    ensures Incoming(inc, from) == r
    decreases |inc|
  {
    if inc[0].0 != from {
      FeedsIncoming(inc[1..], from, r);
    }
  }

  lemma LoopKept(p: string, bs: seq<Block>, bs': seq<Block>, m: Places, m': Places, o: nat, test: Label, r: Reg)
    requires LoopPlaced(p, bs, m, o, test, r) && Grows(bs, bs') && KeepsPlaces(m, m')
    ensures LoopPlaced(p, bs', m', o, test, r)
  {
    var t := bs[test];
    assert bs'[test].term == t.term && bs'[test].body == t.body && PhiGrows(t.phi, bs'[test].phi);
    FeedsMore(bs[t.term.yes].phi.incoming, bs'[t.term.yes].phi.incoming, test, t.phi.dst);
  }

  /** What is placed stays placed while the code grows. */
  lemma PlacedKept(p: string, ly: Layout, bs: seq<Block>, bs': seq<Block>, m: Places, m': Places, a: nat)
    requires a in m && a in m' && m'[a] == m[a] && Placed(p, ly, bs, m, a) && Grows(bs, bs') && KeepsPlaces(m, m')
    ensures Placed(p, ly, bs', m', a)
  {
    var x := m[a];
    assert bs[x.block].body <= bs'[x.block].body;
    match x.sym
    case SymLoop =>
      LoopKept(p, bs, bs', m, m', x.cmd, bs[x.block].term.to, x.reg);
      FeedsMore(bs[bs[x.block].term.to].phi.incoming, bs'[bs[x.block].term.to].phi.incoming, x.block, x.head);
    case SymEndLoop =>
      LoopKept(p, bs, bs', m, m', ScanOpen(p, x.cmd, 0), bs[x.block].term.to, x.reg);
      FeedsMore(bs[bs[x.block].term.to].phi.incoming, bs'[bs[x.block].term.to].phi.incoming, x.block, x.head);
    case _ =>
  }
}
