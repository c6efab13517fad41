// Running the compiled code does what running the source one command at a time does.
module BrainFRun {
  import opened BrainFLanguage
  import opened BrainFIr
  import opened BrainFCode
  import opened BrainFPlaces

  // ---------------------------------------------------------------- traces

  ghost predicate IsTrace(base: int, bs: seq<Block>, tr: seq<Config>) {
    |tr| > 0 && forall k :: 0 <= k < |tr| - 1 ==> tr[k + 1] == StepConfig(base, bs, tr[k])
  }

  lemma {:induction false} TraceRuns(base: int, bs: seq<Block>, tr: seq<Config>, k: nat)
    requires IsTrace(base, bs, tr) && k < |tr|
    ensures RunConfig(base, bs, tr[0], k) == tr[k]
    decreases k
  {
    if k > 0 {
      assert IsTrace(base, bs, tr[1..]);
      TraceRuns(base, bs, tr[1..], k - 1);
    }
  }

  /** The addresses that the next step reads or writes. */
  ghost function Touched(bs: seq<Block>, c: Config): set<int> {
    if c.Done? || c.block >= |bs| || c.idx >= |bs[c.block].body| then {}
    else
      match bs[c.block].body[c.idx]
      case Load(_, ptr) => {Val(c.regs, ptr)}
      case Store(_, ptr) => {Val(c.regs, ptr)}
      case Memset(ptr, len) => Addresses(Val(c.regs, ptr), len)
      case _ => {}
  }

  /** Nothing but address a is touched, and what has been written is as in w or as in w'. */
  ghost predicate Tame(bs: seq<Block>, tr: seq<Config>, a: int, w: World, w': World) {
    && (forall k :: 0 <= k < |tr| - 1 ==> Touched(bs, tr[k]) <= {a})
    && (forall k :: 0 <= k < |tr| ==> tr[k].world.out == w.out || tr[k].world.out == w'.out)
  }

  // ---------------------------------------------------------------- silent stretches of the source

  ghost predicate Silent(p: string, s: State, n: nat)
    requires s.pc <= |p|
    decreases n
  {
    n == 0 || s.pc == |p| || (Step(p, s).world.out == s.world.out && Silent(p, Step(p, s), n - 1))
  }

  lemma {:induction false} SilentOut(p: string, s: State, n: nat, t: nat)
    requires s.pc <= |p| && Silent(p, s, n) && t <= n
    ensures Run(p, s, t).world.out == s.world.out
    decreases t
  {
    if t > 0 && s.pc < |p| {
      SilentOut(p, Step(p, s), n - 1, t - 1);
    }
  }

  /** Nothing is written while the commands passed are neither '.' nor brackets. */
  lemma {:induction false} SilentStraight(p: string, s: State, n: nat)
    requires s.pc + n <= |p| && forall i :: s.pc <= i < s.pc + n ==> p[i] != '.' && p[i] != '[' && p[i] != ']'
    ensures Silent(p, s, n)
    decreases n
  {
    if n > 0 {
      SilentStraight(p, Step(p, s), n - 1);
    }
  }

  lemma {:induction false} SilentThen(p: string, s: State, a: nat, b: nat)
    requires s.pc <= |p| && Silent(p, s, a) && Silent(p, Run(p, s, a), b)
    ensures Silent(p, s, a + b)
    decreases a
  {
    if a > 0 && s.pc < |p| {
      SilentThen(p, Step(p, s), a - 1, b);
    }
  }

  // ---------------------------------------------------------------- matching states

  ghost predicate InTape(base: int, ly: Layout, a: int) {
    base <= a < base + ly.mem
  }

  ghost predicate Fits(p: string, base: int, ly: Layout) {
    0 < base && base + ly.mem < WORD && |p| < 0x8000_0000
  }

  /** The machine is at the code for the source's position, with the same head and the same world. */
  ghost predicate Matches(base: int, ly: Layout, m: Places, s: State, c: Config) {
    && c.At? && s.pc in m && c.block == m[s.pc].block && c.idx == m[s.pc].idx
    && Val(c.regs, m[s.pc].head) == s.head && c.world == s.world && Val(c.regs, ly.arr) == base
    && (ly.bounds ==> Val(c.regs, ly.arrmax) == base + ly.mem && InTape(base, ly, s.head))
  }

  /** In the states from s on, n of them, the head is on the tape where runs of moves have ended. */
  ghost predicate Passes(p: string, base: int, ly: Layout, s: State, n: nat)
    requires s.pc <= |p|
    decreases n
  {
    n == 0 || ((RunEnds(p, s.pc) ==> InTape(base, ly, s.head))
      && (s.pc == |p| || Passes(p, base, ly, Step(p, s), n - 1)))
  }

  lemma {:induction false} PassesAt(p: string, base: int, ly: Layout, s: State, n: nat, t: nat)
    requires s.pc <= |p| && Passes(p, base, ly, s, n) && t < n && RunEnds(p, Run(p, s, t).pc)
    ensures InTape(base, ly, Run(p, s, t).head)
    decreases t
  {
    if t > 0 && s.pc < |p| {
      PassesAt(p, base, ly, Step(p, s), n - 1, t - 1);
    }
  }

  /** While nothing moves the head, up to a bracket. */
  lemma {:induction false} PassesStill(p: string, base: int, ly: Layout, s: State, n: nat)
    requires s.pc <= |p| && s.pc + n <= |p| + 1 && InTape(base, ly, s.head)
    requires forall i :: s.pc <= i < s.pc + n - 1 ==> p[i] != '>' && p[i] != '<' && p[i] != '[' && p[i] != ']'
    ensures Passes(p, base, ly, s, n)
    decreases n
  {
    if n > 1 {
      PassesStill(p, base, ly, Step(p, s), n - 1);
    } else if n == 1 && s.pc < |p| {
      assert Passes(p, base, ly, Step(p, s), 0);
    }
  }

  /** Inside a run of moves. */
  lemma {:induction false} PassesMoves(p: string, base: int, ly: Layout, s: State, n: nat)
    requires s.pc + n <= |p| && forall i :: s.pc <= i < s.pc + n ==> p[i] == '>' || p[i] == '<' || !Command(p[i])
    ensures Passes(p, base, ly, s, n)
    decreases n
  {
    if n > 0 {
      PassesMoves(p, base, ly, Step(p, s), n - 1);
    }
  }

  lemma {:induction false} PassesThen(p: string, base: int, ly: Layout, s: State, a: nat, b: nat)
    requires s.pc <= |p| && Passes(p, base, ly, s, a) && Passes(p, base, ly, Run(p, s, a), b)
    ensures Passes(p, base, ly, s, a + b)
    decreases a
  {
    if a > 0 && s.pc < |p| {
      PassesThen(p, base, ly, Step(p, s), a - 1, b);
    }
  }

  datatype Outcome = GoesOn | Halts | LeavesTape

  /** At an end the tape is given back, after a message if the head has left it. */
  function Ending(base: int, o: Outcome, w: World): World {
    if o == GoesOn then w
    else w.(out := if o == LeavesTape then w.out + [Message] else w.out, freed := w.freed + [base])
  }

  /** One token of the source, and what the code for it does. */
  ghost predicate Follows(p: string, base: int, ly: Layout, bs: seq<Block>, m: Places, s: State, i: nat,
                          tr: seq<Config>, o: Outcome)
    requires s.pc <= |p|
  {
    var s' := Run(p, s, i);
    && IsTrace(base, bs, tr) && |tr| > 1 && Tame(bs, tr, s.head, s.world, Ending(base, o, s'.world))
    && (i > 0 ==> Silent(p, s, i - 1)) && (ly.bounds ==> Passes(p, base, ly, s, if o == Halts then i + 1 else i))
    && match o
       case GoesOn => i > 0 && s.pc < |p| && Matches(base, ly, m, s', tr[|tr| - 1])
       case Halts => s'.pc == |p| && tr[|tr| - 1] == Done(Ending(base, o, s'.world))
       case LeavesTape =>
         i > 0 && ly.bounds && !InTape(base, ly, s'.head) && RunEnds(p, s'.pc)
           && tr[|tr| - 1] == Done(Ending(base, o, s'.world))
  }

  ghost function ExecAt(base: int, i: Instr, c: Config): Config
    requires c.At?
  {
    var (regs, w) := Exec(base, i, c.regs, c.world);
    At(c.block, c.idx + 1, regs, w)
  }

  lemma ExecStep(base: int, bs: seq<Block>, c: Config, instrs: seq<Instr>, idx: nat, t: nat)
    requires c.At? && c.block < |bs| && HasInstrs(bs[c.block].body, idx, instrs) && t < |instrs| && c.idx == idx + t
    ensures c.idx < |bs[c.block].body| && bs[c.block].body[c.idx] == instrs[t]
    ensures StepConfig(base, bs, c) == ExecAt(base, instrs[t], c)
  {
    var body := bs[c.block].body;
    assert body[idx..idx + |instrs|][t] == body[idx + t];
  }

  /** Executing the next three instructions of a block. */
  lemma ThreeInstrs(base: int, bs: seq<Block>, c: Config, i0: Instr, i1: Instr, i2: Instr)
    returns (c1: Config, c2: Config, c3: Config)
    requires c.At? && c.block < |bs| && HasInstrs(bs[c.block].body, c.idx, [i0, i1, i2])
    ensures c1 == ExecAt(base, i0, c) && c2 == ExecAt(base, i1, c1) && c3 == ExecAt(base, i2, c2)
    ensures c.idx + 2 < |bs[c.block].body| && bs[c.block].body[c.idx] == i0
    ensures bs[c.block].body[c.idx + 1] == i1 && bs[c.block].body[c.idx + 2] == i2
    ensures IsTrace(base, bs, [c, c1, c2, c3])
  {
    hide Exec, HasInstrs, StepConfig;
    var instrs := [i0, i1, i2];
    ExecStep(base, bs, c, instrs, c.idx, 0);
    c1 := ExecAt(base, i0, c);
    ExecStep(base, bs, c1, instrs, c.idx, 1);
    c2 := ExecAt(base, i1, c1);
    ExecStep(base, bs, c2, instrs, c.idx, 2);
    c3 := ExecAt(base, i2, c2);
  }

  lemma SumAgain(w: World, a: int, k: int)
    ensures w.Set(a, (w.Cell(a) + k % 256) % 256) == w.Set(a, w.Cell(a) + k)
  {
  }

  /** Registers below r keep their values, and the block stays the same. */
  ghost predicate KeepsLow(c: Config, c': Config, r: Reg) {
    c.At? && c'.At? && c'.block == c.block && forall x: Reg :: x < r ==> Val(c'.regs, x) == Val(c.regs, x)
  }

  lemma ThreeTame(bs: seq<Block>, c: Config, c1: Config, c2: Config, c3: Config, a: int, w': World)
    requires Touched(bs, c) <= {a} && Touched(bs, c1) <= {a} && Touched(bs, c2) <= {a}
    requires c1.world.out == c.world.out && c2.world.out == c.world.out && c3.world.out == w'.out
    ensures Tame(bs, [c, c1, c2, c3], a, c.world, w')
  {
    hide Touched;
    var tr := [c, c1, c2, c3];
    forall k | 0 <= k < 3
      ensures Touched(bs, tr[k]) <= {a}
    {
      if k == 0 {} else if k == 1 {} else {}
    }
  }

  lemma ChangeExec(base: int, bs: seq<Block>, c: Config, c1: Config, c2: Config, c3: Config, head: Reg, r: Reg, k: int)
    requires c.At? && c.block < |bs| && c.idx + 2 < |bs[c.block].body| && head < r
    requires c1 == ExecAt(base, Load(r, head), c) && c2 == ExecAt(base, AddConst(r + 1, r, k % 256), c1)
    requires c3 == ExecAt(base, Store(r + 1, head), c2)
    requires bs[c.block].body[c.idx] == Load(r, head) && bs[c.block].body[c.idx + 1] == AddConst(r + 1, r, k % 256)
    requires bs[c.block].body[c.idx + 2] == Store(r + 1, head)
    ensures KeepsLow(c, c3, r) && c3.idx == c.idx + 3
    ensures var a := Val(c.regs, head); c3.world == c.world.Set(a, c.world.Cell(a) + k)
    ensures Tame(bs, [c, c1, c2, c3], Val(c.regs, head), c.world, c3.world)
  {
    SumAgain(c.world, Val(c.regs, head), k);
    ThreeTame(bs, c, c1, c2, c3, Val(c.regs, head), c3.world);
  }

  lemma ReadExec(base: int, bs: seq<Block>, c: Config, c1: Config, c2: Config, c3: Config, head: Reg, r: Reg)
    requires c.At? && c.block < |bs| && c.idx + 2 < |bs[c.block].body| && head < r
    requires c1 == ExecAt(base, CallGetChar(r), c) && c2 == ExecAt(base, Trunc(r + 1, r), c1)
    requires c3 == ExecAt(base, Store(r + 1, head), c2)
    requires bs[c.block].body[c.idx] == CallGetChar(r) && bs[c.block].body[c.idx + 1] == Trunc(r + 1, r)
    requires bs[c.block].body[c.idx + 2] == Store(r + 1, head)
    ensures KeepsLow(c, c3, r) && c3.idx == c.idx + 3
    ensures c3.world == c.world.Skip().Set(Val(c.regs, head), c.world.Next())
    ensures Tame(bs, [c, c1, c2, c3], Val(c.regs, head), c.world, c3.world)
  {
    ThreeTame(bs, c, c1, c2, c3, Val(c.regs, head), c3.world);
  }

  lemma WriteExec(base: int, bs: seq<Block>, c: Config, c1: Config, c2: Config, c3: Config, head: Reg, r: Reg)
    requires c.At? && c.block < |bs| && c.idx + 2 < |bs[c.block].body| && head < r
    requires c1 == ExecAt(base, Load(r, head), c) && c2 == ExecAt(base, SExt(r + 1, r), c1)
    requires c3 == ExecAt(base, CallPutChar(r + 1), c2)
    requires bs[c.block].body[c.idx] == Load(r, head) && bs[c.block].body[c.idx + 1] == SExt(r + 1, r)
    requires bs[c.block].body[c.idx + 2] == CallPutChar(r + 1)
    ensures KeepsLow(c, c3, r) && c3.idx == c.idx + 3
    ensures c3.world == c.world.Put(c.world.Cell(Val(c.regs, head)))
    ensures Tame(bs, [c, c1, c2, c3], Val(c.regs, head), c.world, c3.world)
  {
    ThreeTame(bs, c, c1, c2, c3, Val(c.regs, head), c3.world);
  }

  lemma MatchesAfter(base: int, ly: Layout, m: Places, s: State, c: Config, s': State, c': Config, r: Reg)
    requires Matches(base, ly, m, s, c) && KeepsLow(c, c', r) && ly.first <= m[s.pc].head < r
    requires IsAt(m, s'.pc, c'.block, c'.idx, m[s.pc].head) && s'.head == s.head && s'.world == c'.world
    ensures Matches(base, ly, m, s', c')
  {
  }

  lemma MatchesFacts(base: int, ly: Layout, m: Places, s: State, c: Config)
    requires Matches(base, ly, m, s, c)
    ensures c.At? && s.pc in m && c.block == m[s.pc].block && c.idx == m[s.pc].idx
    ensures Val(c.regs, m[s.pc].head) == s.head && c.world == s.world && Val(c.regs, ly.arr) == base
    ensures ly.bounds ==> Val(c.regs, ly.arrmax) == base + ly.mem && InTape(base, ly, s.head)
  {
  }

  lemma ChangeFollows(p: string, base: int, ly: Layout, bs: seq<Block>, m: Places, s: State, c: Config)
    returns (i: nat, tr: seq<Config>)
    requires s.pc <= |p| && Matches(base, ly, m, s, c) && Placed(p, ly, bs, m, s.pc) && m[s.pc].sym == SymChange
    ensures Follows(p, base, ly, bs, m, s, i, tr, GoesOn) && tr[0] == c
  {
    hide Run, Delta, HasInstrs, IsTrace, Exec, ExecAt, StepConfig, Touched, Tame, KeepsLow, Matches, Passes, InTape;
    MatchesFacts(base, ly, m, s, c);
    var x := m[s.pc];
    var k := Delta(p, x.cmd, x.end, '+', '-');
    i := x.end - s.pc;
    RunChanges(p, s, x.cmd, x.end);
    SilentStraight(p, s, i - 1);
    if ly.bounds { PassesStill(p, base, ly, s, i); }
    var c1, c2, c3 := ThreeInstrs(base, bs, c, Load(x.reg, x.head), AddConst(x.reg + 1, x.reg, k % 256),
      Store(x.reg + 1, x.head));
    ChangeExec(base, bs, c, c1, c2, c3, x.head, x.reg, k);
    MatchesAfter(base, ly, m, s, c, Run(p, s, i), c3, x.reg);
    tr := [c, c1, c2, c3];
  }

  lemma ReadFollows(p: string, base: int, ly: Layout, bs: seq<Block>, m: Places, s: State, c: Config)
    returns (i: nat, tr: seq<Config>)
    requires s.pc <= |p| && Matches(base, ly, m, s, c) && Placed(p, ly, bs, m, s.pc) && m[s.pc].sym == SymRead
    ensures Follows(p, base, ly, bs, m, s, i, tr, GoesOn) && tr[0] == c
  {
    hide Run, Delta, HasInstrs, IsTrace, Exec, ExecAt, StepConfig, Touched, Tame, KeepsLow, Matches, Passes, InTape;
    MatchesFacts(base, ly, m, s, c);
    var x := m[s.pc];
    i := x.end - s.pc;
    RunCommand(p, s, x.cmd);
    SilentStraight(p, s, i - 1);
    if ly.bounds { PassesStill(p, base, ly, s, i); }
    var c1, c2, c3 := ThreeInstrs(base, bs, c, CallGetChar(x.reg), Trunc(x.reg + 1, x.reg), Store(x.reg + 1, x.head));
    ReadExec(base, bs, c, c1, c2, c3, x.head, x.reg);
    MatchesAfter(base, ly, m, s, c, Run(p, s, i), c3, x.reg);
    tr := [c, c1, c2, c3];
  }

  lemma WriteFollows(p: string, base: int, ly: Layout, bs: seq<Block>, m: Places, s: State, c: Config)
    returns (i: nat, tr: seq<Config>)
    requires s.pc <= |p| && Matches(base, ly, m, s, c) && Placed(p, ly, bs, m, s.pc) && m[s.pc].sym == SymWrite
    ensures Follows(p, base, ly, bs, m, s, i, tr, GoesOn) && tr[0] == c
  {
    hide Run, Delta, HasInstrs, IsTrace, Exec, ExecAt, StepConfig, Touched, Tame, KeepsLow, Matches, Passes, InTape;
    MatchesFacts(base, ly, m, s, c);
    var x := m[s.pc];
    i := x.end - s.pc;
    RunCommand(p, s, x.cmd);
    SilentStraight(p, s, i - 1);
    if ly.bounds { PassesStill(p, base, ly, s, i); }
    var c1, c2, c3 := ThreeInstrs(base, bs, c, Load(x.reg, x.head), SExt(x.reg + 1, x.reg), CallPutChar(x.reg + 1));
    WriteExec(base, bs, c, c1, c2, c3, x.head, x.reg);
    MatchesAfter(base, ly, m, s, c, Run(p, s, i), c3, x.reg);
    tr := [c, c1, c2, c3];
  }

  lemma FitsInt32(p: string, a: nat, b: nat)
    requires a <= b <= |p| < 0x8000_0000
    ensures Int32(Delta(p, a, b, '>', '<')) == Delta(p, a, b, '>', '<')
  {
    DeltaBound(p, a, b, '>', '<');
  }

  lemma MoveFollows(p: string, base: int, ly: Layout, bs: seq<Block>, m: Places, s: State, c: Config)
    returns (i: nat, tr: seq<Config>, o: Outcome)
    requires Fits(p, base, ly) && s.pc <= |p| && Matches(base, ly, m, s, c) && Placed(p, ly, bs, m, s.pc)
             && m[s.pc].sym == SymMove
    requires ly.bounds ==>
               |bs| > 2 && bs[2] == Block(NoPhi, [CallPuts], Br(1)) && bs[1] == Block(NoPhi, [CallFree(ly.arr)], Ret)
    ensures Follows(p, base, ly, bs, m, s, i, tr, o) && tr[0] == c && o != Halts
  {
    hide RunConfig, Run, Delta;
    var x := m[s.pc];
    i := x.end - s.pc;
    FitsInt32(p, x.cmd, x.end);
    RunMoves(p, s, x.cmd, x.end);
    SilentStraight(p, s, i - 1);
    if ly.bounds {
      PassesMoves(p, base, ly, s, i);
      tr, o := CheckedMoveFollows(p, base, ly, bs, m, s, c, i);
    } else {
      ExecStep(base, bs, c, [Gep(x.reg, x.head, Int32(Delta(p, x.cmd, x.end, '>', '<')))], x.idx, 0);
      tr, o := [c, StepConfig(base, bs, c)], GoesOn;
    }
  }

  lemma CheckExec(base: int, ly: Layout, bs: seq<Block>, c: Config, c1: Config, c2: Config, c3: Config, r: Reg)
    requires c.At? && c.block < |bs| && c.idx + 2 < |bs[c.block].body| && ly.first < r && ly.bounds
    requires c1 == ExecAt(base, CmpUge(r + 1, r, ly.arrmax), c) && c2 == ExecAt(base, CmpUlt(r + 2, r, ly.arr), c1)
    requires c3 == ExecAt(base, OrBits(r + 3, r + 1, r + 2), c2)
    requires bs[c.block].body[c.idx] == CmpUge(r + 1, r, ly.arrmax)
             && bs[c.block].body[c.idx + 1] == CmpUlt(r + 2, r, ly.arr)
    requires bs[c.block].body[c.idx + 2] == OrBits(r + 3, r + 1, r + 2)
    requires Val(c.regs, ly.arr) == base && Val(c.regs, ly.arrmax) == base + ly.mem
    ensures KeepsLow(c, c3, r + 1) && c3.idx == c.idx + 3 && c3.world == c.world
    ensures Val(c3.regs, r + 3) == Bit(!InTape(base, ly, Val(c.regs, r)))
    ensures Touched(bs, c) == Touched(bs, c1) == Touched(bs, c2) == {} && c1.world == c2.world == c.world
  {
  }

  lemma CheckedMoveFollows(p: string, base: int, ly: Layout, bs: seq<Block>, m: Places, s: State, c: Config, i: nat)
    returns (tr: seq<Config>, o: Outcome)
    requires Fits(p, base, ly) && s.pc <= |p| && Matches(base, ly, m, s, c) && Placed(p, ly, bs, m, s.pc)
             && m[s.pc].sym == SymMove
    requires ly.bounds && |bs| > 2 && bs[2] == Block(NoPhi, [CallPuts], Br(1))
             && bs[1] == Block(NoPhi, [CallFree(ly.arr)], Ret)
    requires i == m[s.pc].end - s.pc && i > 0 && Silent(p, s, i - 1) && Passes(p, base, ly, s, i)
    requires Run(p, s, i)
             == State(m[s.pc].end, (s.head + Int32(Delta(p, m[s.pc].cmd, m[s.pc].end, '>', '<'))) % WORD, s.world)
    ensures Follows(p, base, ly, bs, m, s, i, tr, o) && tr[0] == c && o != Halts
  {
    hide Run, Delta, HasInstrs, KeepsLow, InTape, StepConfig, Exec, ExecAt, Placed, Matches, TokenIs, Silent, Touched,
         IsTrace;
    MatchesFacts(base, ly, m, s, c);
    MovePlaced(p, ly, bs, m, s.pc);
    var x := m[s.pc];
    var h := Run(p, s, i).head;
    var k := Int32(Delta(p, x.cmd, x.end, '>', '<'));
    var c1 := GepStep(base, bs, c, x.reg, x.head, k, h, s.head);
    var c2, c3, c4 := ThreeInstrs(base, bs, c1, CmpUge(x.reg + 1, x.reg, ly.arrmax), CmpUlt(x.reg + 2, x.reg, ly.arr),
                                  OrBits(x.reg + 3, x.reg + 1, x.reg + 2));
    CheckExec(base, ly, bs, c1, c2, c3, c4, x.reg);
    tr, o := CheckedBranch(p, base, ly, bs, m, s, c, c1, c2, c3, c4, i, h);
  }

  lemma MovePlaced(p: string, ly: Layout, bs: seq<Block>, m: Places, a: nat)
    requires a in m && Placed(p, ly, bs, m, a) && m[a].sym == SymMove && ly.bounds
    ensures var x := m[a];
            && x.block < |bs| && x.cmd <= x.end <= |p| && RunEnds(p, x.end) && ly.first <= x.head < x.reg
            && HasInstrs(bs[x.block].body, x.idx, [Gep(x.reg, x.head, Int32(Delta(p, x.cmd, x.end, '>', '<')))])
            && HasInstrs(bs[x.block].body, x.idx + 1, CheckInstrs(ly, x.reg))
  {
    hide HasInstrs, Delta, Int32, OnlyIn, Comments;
  }

  /** The new head is computed. */
  lemma GepStep(base: int, bs: seq<Block>, c: Config, r: Reg, head: Reg, k: int, h: int, was: int) returns (c1: Config)
    requires c.At? && c.block < |bs| && HasInstrs(bs[c.block].body, c.idx, [Gep(r, head, k)])
    requires Val(c.regs, head) == was && h == (was + k) % WORD
    ensures c1 == StepConfig(base, bs, c) && c1 == At(c.block, c.idx + 1, c.regs[r := h], c.world)
    ensures Touched(bs, c) == {} && Val(c1.regs, r) == h
            && forall x: Reg :: x != r ==> Val(c1.regs, x) == Val(c.regs, x)
  {
    ExecStep(base, bs, c, [Gep(r, head, k)], c.idx, 0);
    hide StepConfig, HasInstrs;
    c1 := StepConfig(base, bs, c);
  }

  lemma CheckedBranch(p: string, base: int, ly: Layout, bs: seq<Block>, m: Places, s: State, c: Config,
                      c1: Config, c2: Config, c3: Config, c4: Config, i: nat, h: int) returns (tr: seq<Config>,
                        o: Outcome)
    requires s.pc <= |p| && Matches(base, ly, m, s, c) && Placed(p, ly, bs, m, s.pc) && m[s.pc].sym == SymMove
    requires ly.bounds && |bs| > 2 && bs[2] == Block(NoPhi, [CallPuts], Br(1))
             && bs[1] == Block(NoPhi, [CallFree(ly.arr)], Ret)
    requires i == m[s.pc].end - s.pc && i > 0 && Silent(p, s, i - 1) && Run(p, s, i) == State(m[s.pc].end, h, s.world)
    requires Passes(p, base, ly, s, i) && RunEnds(p, m[s.pc].end)
    requires IsTrace(base, bs, [c1, c2, c3, c4]) && c1 == StepConfig(base, bs, c)
    requires c1 == At(c.block, c.idx + 1, c.regs[m[s.pc].reg := h], c.world)
    requires KeepsLow(c1, c4, m[s.pc].reg + 1) && c4.idx == c.idx + 4 && c4.world == c.world
    requires Val(c4.regs, m[s.pc].reg + 3) == Bit(!InTape(base, ly, h))
    requires Touched(bs, c) == Touched(bs, c1) == Touched(bs, c2) == Touched(bs, c3) == {}
    requires c1.world == c2.world == c3.world
    ensures Follows(p, base, ly, bs, m, s, i, tr, o) && tr[0] == c && o != Halts
  {
    hide Run, Delta, HasInstrs, Exec, Touched, TokenIs, InTape, Passes, RunEnds, Ending;
    EndingOut(base, s.world);
    var c0 := [c1, c2, c3, c4];
    assert c0[1] == StepConfig(base, bs, c0[0]) && c0[2] == StepConfig(base, bs, c0[1])
      && c0[3] == StepConfig(base, bs, c0[2]);
    assert Touched(bs, c4) == {} by { NothingTouched(bs, c4); }
    if InTape(base, ly, h) {
      o := GoesOn;
      var c5 := StepConfig(base, bs, c4);
      tr := [c, c1, c2, c3, c4, c5];
    } else {
      o := LeavesTape;
      var te := ErrorTrace(base, ly, bs, c4);
      tr := [c, c1, c2, c3, c4] + te;
    }
  }

  lemma EndingOut(base: int, w: World)
    ensures Ending(base, LeavesTape, w).out == w.out + [Message] && Ending(base, GoesOn, w) == w
  {
  }

  lemma NothingTouched(bs: seq<Block>, c: Config)
    requires c.At? && c.block < |bs| && c.idx == |bs[c.block].body|
    ensures Touched(bs, c) == {}
  {
  }

  lemma ErrorTrace(base: int, ly: Layout, bs: seq<Block>, c: Config) returns (tr: seq<Config>)
    requires |bs| > 2 && bs[2] == Block(NoPhi, [CallPuts], Br(1)) && bs[1] == Block(NoPhi, [CallFree(ly.arr)], Ret)
    requires c.At? && StepConfig(base, bs, c) == At(2, 0, c.regs, c.world) && Val(c.regs, ly.arr) == base
    ensures |tr| == 5 && tr[0] == StepConfig(base, bs, c) && IsTrace(base, bs, tr)
    ensures forall k :: 0 <= k < 4 ==> Touched(bs, tr[k]) == {}
    ensures forall k :: 0 <= k < 5 ==> tr[k].world.out == c.world.out || tr[k].world.out == c.world.out + [Message]
    ensures tr[4] == Done(Ending(base, LeavesTape, c.world))
  {
    var w, w' := c.world.(out := c.world.out + [Message]), Ending(base, LeavesTape, c.world);
    tr := [At(2, 0, c.regs, c.world), At(2, 1, c.regs, w), At(1, 0, c.regs, w), At(1, 1, c.regs, w'), Done(w')];
  }

  // ---------------------------------------------------------------- loops

  /** Where the source goes from the '[' at o. */
  function AfterTest(p: string, o: nat, s: State): State
    requires o < |p| && ScanClose(p, o + 1, 0) < |p|
  {
    s.(pc := if s.world.Cell(s.head) != 0 then o + 1 else ScanClose(p, o + 1, 0) + 1)
  }

  /** Entering the test block and doing its two instructions. */
  lemma TestSteps(base: int, bs: seq<Block>, test: Label, phi: Reg, r: Reg, c: Config, h: int, w: World)
    returns (c1: Config, c2: Config, c3: Config)
    requires test < |bs| && bs[test].phi.Phi? && bs[test].phi.dst == phi < r && bs[test].body == TestInstrs(phi, r)
    requires c.At? && c.block < |bs| && c.idx == |bs[c.block].body| && bs[c.block].term == Br(test)
    requires Val(c.regs, Incoming(bs[test].phi.incoming, c.block)) == h && c.world == w
    ensures IsTrace(base, bs, [c, c1, c2, c3]) && Tame(bs, [c, c1, c2, c3], h, w, w)
    ensures c3 == At(test, 2, c.regs[phi := h][r := w.Cell(h)][r + 1 := Bit(w.Cell(h) == 0)], w)
    ensures c1.world == w && c2.world == w
  {
    hide Incoming;
    var r1 := c.regs[phi := h];
    var r2 := r1[r := w.Cell(h)];
    c1, c2, c3 := At(test, 0, r1, w), At(test, 1, r2, w), At(test, 2, r2[r + 1 := Bit(w.Cell(h) == 0)], w);
    assert StepConfig(base, bs, c) == c1;
    assert StepConfig(base, bs, c1) == c2;
    assert StepConfig(base, bs, c2) == c3;
    NothingTouched(bs, c);
    ThreeTame(bs, c, c1, c2, c3, h, w);
  }

  /** From the end of the test block into the body or to the exit. */
  lemma TestBranch(base: int, bs: seq<Block>, test: Label, phi: Reg, r: Reg, regs: Regs, w: World, v: int, h: int)
    returns (c: Config)
    requires test < |bs| && bs[test].body == TestInstrs(phi, r) && bs[test].term.CondBr? && bs[test].term.cond == r + 1
    requires bs[test].term.yes < |bs| && bs[test].term.no < |bs| && bs[bs[test].term.no].phi == NoPhi
    requires bs[bs[test].term.yes].phi.Phi? && Incoming(bs[bs[test].term.yes].phi.incoming, test) == phi
    requires Val(regs, r + 1) == Bit(v == 0) && Val(regs, phi) == h
    ensures c == StepConfig(base, bs, At(test, 2, regs, w)) && Touched(bs, At(test, 2, regs, w)) == {}
    ensures v == 0 ==> c == At(bs[test].term.yes, 0, regs[bs[bs[test].term.yes].phi.dst := h], w)
    ensures v != 0 ==> c == At(bs[test].term.no, 0, regs, w)
  {
    hide Incoming;
    c := StepConfig(base, bs, At(test, 2, regs, w));
    NothingTouched(bs, At(test, 2, regs, w));
  }

  lemma OneMoreStep(base: int, bs: seq<Block>, c: Config, c1: Config, c2: Config, c3: Config, c4: Config, a: int,
                    w: World)
    requires IsTrace(base, bs, [c, c1, c2, c3]) && Tame(bs, [c, c1, c2, c3], a, w, w)
    requires c4 == StepConfig(base, bs, c3) && Touched(bs, c3) == {} && c4.world.out == w.out
    ensures IsTrace(base, bs, [c, c1, c2, c3, c4]) && Tame(bs, [c, c1, c2, c3, c4], a, w, w)
  {
    hide StepConfig, Touched;
    var tr, more := [c, c1, c2, c3], [c, c1, c2, c3, c4];
    assert forall k :: 0 <= k < 4 ==> more[k] == tr[k];
  }

  /** What a placed loop says about its test block. */
  lemma LoopFacts(p: string, ly: Layout, bs: seq<Block>, m: Places, o: nat, test: Label, r: Reg)
    requires LoopPlaced(p, bs, m, o, test, r) && Complete(p, ly, bs, m)
    ensures test < |bs| && bs[test].phi.Phi? && bs[test].phi.dst < r && bs[test].body == TestInstrs(bs[test].phi.dst, r)
    ensures bs[test].term.CondBr? && bs[test].term.cond == r + 1 && bs[test].term.yes < |bs| && bs[test].term.no < |bs|
    ensures bs[bs[test].term.no].phi == NoPhi && bs[bs[test].term.yes].phi.Phi? && ly.first <= bs[test].phi.dst
    ensures Incoming(bs[bs[test].term.yes].phi.incoming, test) == bs[test].phi.dst && r < bs[bs[test].term.yes].phi.dst
    ensures o < |p| && ScanClose(p, o + 1, 0) < |p| && IsAt(m, o + 1, bs[test].term.no, 0, bs[test].phi.dst)
    ensures IsAt(m, ScanClose(p, o + 1, 0) + 1, bs[test].term.yes, 0, bs[bs[test].term.yes].phi.dst)
  {
    hide Complete, ScanClose;
    HeadsHigh(p, ly, bs, m, o + 1);
    FeedsIncoming(bs[bs[test].term.yes].phi.incoming, test, bs[test].phi.dst);
  }

  /** From the end of a block that branches to the test block, through the test. */
  lemma TestRuns(p: string, base: int, ly: Layout, bs: seq<Block>, m: Places, o: nat, test: Label, r: Reg, s: State,
                 c: Config)
    returns (tr: seq<Config>)
    requires LoopPlaced(p, bs, m, o, test, r) && Complete(p, ly, bs, m)
    requires c.At? && c.block < |bs| && c.idx == |bs[c.block].body| && bs[c.block].term == Br(test)
    requires Val(c.regs, Incoming(bs[test].phi.incoming, c.block)) == s.head && c.world == s.world
    requires Val(c.regs, ly.arr) == base
    requires ly.bounds ==> Val(c.regs, ly.arrmax) == base + ly.mem && InTape(base, ly, s.head)
    ensures IsTrace(base, bs, tr) && |tr| == 5 && tr[0] == c && Tame(bs, tr, s.head, s.world, s.world)
    ensures Matches(base, ly, m, AfterTest(p, o, s), tr[4])
  {
    hide Complete, ScanClose, LoopPlaced, IsTrace, Tame, StepConfig, Touched, Incoming, TestInstrs, InTape;
    LoopFacts(p, ly, bs, m, o, test, r);
    var phi, w := bs[test].phi.dst, s.world;
    var c1, c2, c3 := TestSteps(base, bs, test, phi, r, c, s.head, w);
    var c4 := TestBranch(base, bs, test, phi, r, c3.regs, w, w.Cell(s.head), s.head);
    OneMoreStep(base, bs, c, c1, c2, c3, c4, s.head, w);
    tr := [c, c1, c2, c3, c4];
  }

  lemma HeadsHigh(p: string, ly: Layout, bs: seq<Block>, m: Places, a: nat)
    requires Complete(p, ly, bs, m) && a in m
    ensures ly.first <= m[a].head
  {
    assert Placed(p, ly, bs, m, a);
  }

  lemma LoopFollows(p: string, base: int, ly: Layout, bs: seq<Block>, m: Places, s: State, c: Config)
    returns (i: nat, tr: seq<Config>)
    requires s.pc <= |p| && Matches(base, ly, m, s, c) && Complete(p, ly, bs, m) && m[s.pc].sym == SymLoop
    ensures Follows(p, base, ly, bs, m, s, i, tr, GoesOn) && tr[0] == c
  {
    hide Run, Complete, LoopPlaced, IsTrace, Matches, Passes, InTape, RunEnds;
    MatchesFacts(base, ly, m, s, c);
    AllArePlaced(p, ly, bs, m, s.pc);
    var x := m[s.pc];
    var test := bs[x.block].term.to;
    i := x.end - s.pc;
    LoopRange(p, bs, m, x.cmd, test, x.reg);
    RunCommand(p, s, x.cmd);
    SilentStraight(p, s, i - 1);
    if ly.bounds { PassesStill(p, base, ly, s, i); }
    FeedsIncoming(bs[test].phi.incoming, x.block, x.head);
    tr := TestRuns(p, base, ly, bs, m, x.cmd, test, x.reg, s, c);
    assert Run(p, s, i) == AfterTest(p, x.cmd, s);
  }

  lemma AllArePlaced(p: string, ly: Layout, bs: seq<Block>, m: Places, a: nat)
    requires Complete(p, ly, bs, m) && a in m
    ensures Placed(p, ly, bs, m, a)
  {
  }

  lemma LoopRange(p: string, bs: seq<Block>, m: Places, o: nat, test: Label, r: Reg)
    requires LoopPlaced(p, bs, m, o, test, r)
    ensures o < |p| && ScanClose(p, o + 1, 0) < |p| && test < |bs| && bs[test].phi.Phi?
  {
  }

  /** From a ']' the source goes back to its '[' and takes the test from there. */
  lemma EndFollows(p: string, base: int, ly: Layout, bs: seq<Block>, m: Places, s: State, c: Config)
    returns (i: nat, tr: seq<Config>)
    requires s.pc <= |p| && Matches(base, ly, m, s, c) && Complete(p, ly, bs, m) && m[s.pc].sym == SymEndLoop
    ensures Follows(p, base, ly, bs, m, s, i, tr, GoesOn) && tr[0] == c
  {
    hide Run, Complete, LoopPlaced, IsTrace, Matches, ScanClose, ScanOpen, Passes, InTape, RunEnds;
    MatchesFacts(base, ly, m, s, c);
    AllArePlaced(p, ly, bs, m, s.pc);
    var x := m[s.pc];
    var test := bs[x.block].term.to;
    var o := ScanOpen(p, x.cmd, 0);
    var n := x.end - s.pc;
    i := n + 1;
    LoopRange(p, bs, m, o, test, x.reg);
    RunCommand(p, s, x.cmd);
    var s1 := s.(pc := o);
    assert Run(p, s, n) == s1;
    RunThen(p, s, n, 1);
    RunOne(p, s1);
    assert Run(p, s, i) == AfterTest(p, o, s);
    SilentStraight(p, s, n - 1);
    RunComments(p, s, x.cmd);
    SilentEnd(p, s, n - 1);
    if ly.bounds {
      PassesStill(p, base, ly, s, n);
      PassesStill(p, base, ly, s1, 1);
      PassesThen(p, base, ly, s, n, 1);
    }
    FeedsIncoming(bs[test].phi.incoming, x.block, x.head);
    tr := TestRuns(p, base, ly, bs, m, o, test, x.reg, s, c);
  }

  lemma RunOne(p: string, s: State)
    requires s.pc < |p|
    ensures Run(p, s, 1) == Step(p, s)
  {
    assert Run(p, Step(p, s), 0) == Step(p, s);
  }

  /** A silent stretch that arrives at a ']' can be extended by it. */
  lemma SilentEnd(p: string, s: State, n: nat)
    requires s.pc <= |p| && Silent(p, s, n) && Run(p, s, n).pc < |p| && p[Run(p, s, n).pc] == ']'
    ensures Silent(p, s, n + 1)
  {
    var r := Run(p, s, n);
    assert Silent(p, Step(p, r), 0);
    assert Silent(p, r, 1);
    SilentThen(p, s, n, 1);
  }

  lemma EofFollows(p: string, base: int, ly: Layout, bs: seq<Block>, m: Places, s: State, c: Config)
    returns (i: nat, tr: seq<Config>)
    requires s.pc <= |p| && Matches(base, ly, m, s, c) && Complete(p, ly, bs, m) && m[s.pc].sym == SymEof
    ensures Follows(p, base, ly, bs, m, s, i, tr, Halts) && tr[0] == c
  {
    hide Run, Passes, InTape, RunEnds, StepConfig, Touched;
    assert Placed(p, ly, bs, m, s.pc) by { AllArePlaced(p, ly, bs, m, s.pc); }
    i := |p| - s.pc;
    RunOut(p, s);
    if ly.bounds { PassesStill(p, base, ly, s, i + 1); }
    if i > 0 { SilentStraight(p, s, i - 1); }
    tr := EndTrace(base, ly, bs, c);
  }

  lemma EndTrace(base: int, ly: Layout, bs: seq<Block>, c: Config) returns (tr: seq<Config>)
    requires |bs| > 1 && bs[1] == Block(NoPhi, [CallFree(ly.arr)], Ret) && c.At? && Val(c.regs, ly.arr) == base
    requires c.block < |bs| && c.idx == |bs[c.block].body| && bs[c.block].term == Br(1)
    ensures |tr| == 4 && tr[0] == c && IsTrace(base, bs, tr) && tr[3] == Done(Ending(base, Halts, c.world))
    ensures forall k :: 0 <= k < 4 ==> Touched(bs, tr[k]) == {} && tr[k].world.out == c.world.out
  {
    var w := Ending(base, Halts, c.world);
    tr := [c, At(1, 0, c.regs, c.world), At(1, 1, c.regs, w), Done(w)];
    assert StepConfig(base, bs, c) == tr[1];
    assert StepConfig(base, bs, tr[1]) == tr[2];
  }

  // ---------------------------------------------------------------- whole runs

  /** Every matching pair of states goes on to another one, or comes to an end on both sides. */
  lemma EveryTokenFollows(p: string, base: int, ly: Layout, bs: seq<Block>, m: Places, s: State, c: Config)
    returns (i: nat, tr: seq<Config>, o: Outcome)
    requires Fits(p, base, ly) && s.pc <= |p| && Matches(base, ly, m, s, c) && Complete(p, ly, bs, m)
    ensures Follows(p, base, ly, bs, m, s, i, tr, o) && tr[0] == c
  {
    hide Follows, Matches, Run, TokenIs, HasInstrs;
    MatchesFacts(base, ly, m, s, c);
    AllArePlaced(p, ly, bs, m, s.pc);
    o := GoesOn;
    match m[s.pc].sym
    case SymChange => i, tr := ChangeFollows(p, base, ly, bs, m, s, c);
    case SymRead => i, tr := ReadFollows(p, base, ly, bs, m, s, c);
    case SymWrite => i, tr := WriteFollows(p, base, ly, bs, m, s, c);
    case SymMove => i, tr, o := MoveFollows(p, base, ly, bs, m, s, c);
    case SymLoop => i, tr := LoopFollows(p, base, ly, bs, m, s, c);
    case SymEndLoop => i, tr := EndFollows(p, base, ly, bs, m, s, c);
    case SymEof =>
      i, tr := EofFollows(p, base, ly, bs, m, s, c);
      o := Halts;
  }
}
