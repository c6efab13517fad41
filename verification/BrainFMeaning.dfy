// What compiled code does from its first instruction to its end, for every input.
module BrainFMeaning {
  import opened Maps
  import opened BrainFLanguage
  import opened BrainFIr
  import opened BrainFCode
  import opened BrainFPlaces
  import opened BrainFRun

  // ---------------------------------------------------------------- from the source to the machine

  lemma HaltedBefore(p: string, s: State, n: nat, i: nat)
    requires s.pc <= |p| && Run(p, s, n).pc == |p| && n <= i
    ensures Run(p, s, i) == Run(p, s, n)
  {
    RunThen(p, s, n, i - n);
    RunHalted(p, Run(p, s, n), i - n);
  }

  lemma BothHalted(p: string, s: State, n: nat, i: nat)
    requires s.pc <= |p| && Run(p, s, n).pc == |p| && Run(p, s, i).pc == |p|
    ensures Run(p, s, n) == Run(p, s, i)
  {
    if n <= i { HaltedBefore(p, s, n, i); } else { HaltedBefore(p, s, i, n); }
  }

  lemma NotAtEnd(p: string, base: int, ly: Layout, bs: seq<Block>, m: Places, s: State, i: nat, tr: seq<Config>)
    requires s.pc <= |p| && Follows(p, base, ly, bs, m, s, i, tr, GoesOn)
    ensures s.pc < |p| && i > 0 && IsTrace(base, bs, tr) && |tr| > 1
    ensures Matches(base, ly, m, Run(p, s, i), tr[|tr| - 1])
  {
  }

  /** Whenever a run of moves has ended the head is on the tape. */
  ghost predicate ChecksPass(p: string, base: int, ly: Layout, s: State)
    requires s.pc <= |p|
  {
    forall n: nat {:trigger Run(p, s, n)} :: RunEnds(p, Run(p, s, n).pc) ==> InTape(base, ly, Run(p, s, n).head)
  }

  lemma ChecksPassLater(p: string, base: int, ly: Layout, s: State, i: nat)
    requires s.pc <= |p| && ChecksPass(p, base, ly, s)
    ensures ChecksPass(p, base, ly, Run(p, s, i))
  {
    hide Run, InTape, RunEnds;
    forall n: nat | RunEnds(p, Run(p, Run(p, s, i), n).pc)
      ensures InTape(base, ly, Run(p, Run(p, s, i), n).head)
    {
      RunThen(p, s, i, n);
    }
  }

  /** If the source ends, so does the code, with the same result. */
  lemma {:induction false} SourceEndsFirst(p: string, base: int, ly: Layout, bs: seq<Block>, m: Places, s: State,
                                           c: Config, n: nat)
    returns (k: nat)
    requires Fits(p, base, ly) && s.pc <= |p| && Matches(base, ly, m, s, c) && Complete(p, ly, bs, m)
    requires ly.bounds ==> ChecksPass(p, base, ly, s)
    requires Run(p, s, n).pc == |p|
    ensures RunConfig(base, bs, c, k) == Done(Ending(base, Halts, Run(p, s, n).world))
    decreases n
  {
    hide Follows, Matches, Complete, Run, RunConfig;
    var i, tr, o := EveryTokenFollows(p, base, ly, bs, m, s, c);
    var s' := Run(p, s, i);
    var last := |tr| - 1;
    FollowsTrace(p, base, ly, bs, m, s, i, tr, o);
    TraceRuns(base, bs, tr, last);
    if o == GoesOn {
      NotAtEnd(p, base, ly, bs, m, s, i, tr);
      RunNone(p, s);
      if ly.bounds { ChecksPassLater(p, base, ly, s, i); }
      var rest := if n < i then 0 else n - i;
      if n < i { HaltedBefore(p, s, n, i); RunNone(p, s'); } else { RunThen(p, s, i, n - i); }
      var j := SourceEndsFirst(p, base, ly, bs, m, s', tr[last], rest);
      RunConfigThen(base, bs, c, last, j);
      k := last + j;
    } else {
      k := last;
      BothHalted(p, s, n, i);
    }
  }

  lemma RunNone(p: string, s: State)
    requires s.pc <= |p|
    ensures Run(p, s, 0) == s
  {
  }

  lemma FollowsTrace(p: string, base: int, ly: Layout, bs: seq<Block>, m: Places, s: State, i: nat, tr: seq<Config>,
                     o: Outcome)
    requires s.pc <= |p| && Follows(p, base, ly, bs, m, s, i, tr, o)
    ensures IsTrace(base, bs, tr) && |tr| > 1 && Tame(bs, tr, s.head, s.world, Ending(base, o, Run(p, s, i).world))
    ensures i > 0 ==> Silent(p, s, i - 1)
    ensures o == Halts ==> Run(p, s, i).pc == |p|
    ensures o != GoesOn ==> tr[|tr| - 1] == Done(Ending(base, o, Run(p, s, i).world))
    ensures o == LeavesTape ==> ly.bounds && !InTape(base, ly, Run(p, s, i).head) && RunEnds(p, Run(p, s, i).pc)
    ensures ly.bounds ==> Passes(p, base, ly, s, if o == Halts then i + 1 else i)
  {
  }

  /** Whatever the source has written at some time, the code has written at some time. */
  lemma {:induction false} SourceWritesFirst(p: string, base: int, ly: Layout, bs: seq<Block>, m: Places, s: State,
                                             c: Config, n: nat)
    returns (k: nat)
    requires Fits(p, base, ly) && s.pc <= |p| && Matches(base, ly, m, s, c) && Complete(p, ly, bs, m)
    requires ly.bounds ==> ChecksPass(p, base, ly, s)
    ensures RunConfig(base, bs, c, k).world.out == Run(p, s, n).world.out
    decreases n
  {
    hide Follows, Complete, Run, RunConfig, Silent;
    var i, tr, o := EveryTokenFollows(p, base, ly, bs, m, s, c);
    var last := |tr| - 1;
    FollowsTrace(p, base, ly, bs, m, s, i, tr, o);
    TraceRuns(base, bs, tr, last);
    if n < i {
      k := 0;
      TraceRuns(base, bs, tr, 0);
      SilentOut(p, s, i - 1, n);
    } else if o == GoesOn {
      NotAtEnd(p, base, ly, bs, m, s, i, tr);
      RunThen(p, s, i, n - i);
      if ly.bounds { ChecksPassLater(p, base, ly, s, i); }
      var j := SourceWritesFirst(p, base, ly, bs, m, Run(p, s, i), tr[last], n - i);
      RunConfigThen(base, bs, c, last, j);
      k := last + j;
    } else {
      k := last;
      HaltedBefore(p, s, i, n);
    }
  }

  // ---------------------------------------------------------------- from the machine to the source

  /** s tells what c has written and, if c has ended, how: at the end of the program, or because
      the head was off the tape at the end of a run of moves. */
  ghost predicate Explains(p: string, base: int, ly: Layout, s: State, c: Config) {
    || (c.world.out == s.world.out && (c.Done? ==> s.pc == |p| && c.world == Ending(base, Halts, s.world)))
    || (ly.bounds && !InTape(base, ly, s.head) && RunEnds(p, s.pc) && c.world.out == s.world.out + [Message]
        && (c.Done? ==> c.world == Ending(base, LeavesTape, s.world)))
  }

  lemma ExplainedInside(p: string, base: int, ly: Layout, bs: seq<Block>, m: Places, s: State, i: nat, tr: seq<Config>,
                        o: Outcome, k: nat)
    returns (n: nat)
    requires s.pc <= |p| && Follows(p, base, ly, bs, m, s, i, tr, o) && k < |tr| && (tr[k].Done? ==> k == |tr| - 1)
    ensures Explains(p, base, ly, Run(p, s, n), tr[k])
  {
    hide Run, Silent, IsTrace;
    RunNone(p, s);
    if tr[k].Done? || tr[k].world.out != s.world.out {
      n := i;
    } else {
      n := 0;
    }
  }

  /** A trace is finished only at its last step. */
  lemma FinishedLast(p: string, base: int, ly: Layout, bs: seq<Block>, m: Places, s: State, i: nat, tr: seq<Config>,
                     o: Outcome, k: nat)
    returns (j: nat)
    requires s.pc <= |p| && Follows(p, base, ly, bs, m, s, i, tr, o) && k < |tr|
    ensures j < |tr| && tr[j] == tr[k] && (tr[j].Done? ==> j == |tr| - 1)
  {
    j := k;
    if tr[k].Done? {
      j := |tr| - 1;
      assert IsTrace(base, bs, tr[k..]);
      TraceRuns(base, bs, tr[k..], |tr| - 1 - k);
      RunConfigDone(base, bs, tr[k], |tr| - 1 - k);
    }
  }

  /** Every state of the code is explained by a state of the source. */
  lemma {:induction false} EveryStepExplained(p: string, base: int, ly: Layout, bs: seq<Block>, m: Places, s: State,
                                              c: Config, k: nat)
    returns (n: nat)
    requires Fits(p, base, ly) && s.pc <= |p| && Matches(base, ly, m, s, c) && Complete(p, ly, bs, m)
    ensures Explains(p, base, ly, Run(p, s, n), RunConfig(base, bs, c, k))
    decreases k
  {
    hide Follows, Complete, Run, RunConfig, Matches, Explains;
    var i, tr, o := EveryTokenFollows(p, base, ly, bs, m, s, c);
    var last := |tr| - 1;
    FollowsTrace(p, base, ly, bs, m, s, i, tr, o);
    TraceRuns(base, bs, tr, last);
    if k < last {
      TraceRuns(base, bs, tr, k);
      var j := FinishedLast(p, base, ly, bs, m, s, i, tr, o, k);
      n := ExplainedInside(p, base, ly, bs, m, s, i, tr, o, j);
    } else if o == GoesOn {
      NotAtEnd(p, base, ly, bs, m, s, i, tr);
      var r := EveryStepExplained(p, base, ly, bs, m, Run(p, s, i), tr[last], k - last);
      RunThen(p, s, i, r);
      RunConfigThen(base, bs, c, last, k - last);
      n := i + r;
    } else {
      RunConfigThen(base, bs, c, last, k - last);
      RunConfigDone(base, bs, tr[last], k - last);
      n := ExplainedInside(p, base, ly, bs, m, s, i, tr, o, last);
    }
  }

  // ---------------------------------------------------------------- the header

  ghost function SourceStart(base: int, ly: Layout, w: World): State {
    State(0, base + ly.mem / 2, Zeroed(w, base, ly.mem))
  }

  ghost function HeaderTrace(base: int, ly: Layout, w: World): seq<Config> {
    var z := Zeroed(w, base, ly.mem);
    var r1 := map[ly.arr := base];
    var r2 := r1[ly.arrmax := base + ly.mem];
    [At(0, 0, map[], w), At(0, 1, r1, w), At(0, 2, r1, z)]
    + (if ly.bounds then [At(0, 3, r2, z), At(0, 4, r2[ly.first := base + ly.mem / 2], z)]
       else [At(0, 3, r1[ly.first := base + ly.mem / 2], z)])
  }

  /** What running the header needs of the entry block. */
  ghost predicate HeaderThere(ly: Layout, bs: seq<Block>) {
    && |bs| > 0 && |bs[0].body| >= 3 && bs[0].body[0] == Malloc(ly.arr) && bs[0].body[1] == Memset(ly.arr, ly.mem)
    && if ly.bounds then
         |bs[0].body| >= 4 && bs[0].body[2] == Gep(ly.arrmax, ly.arr, ly.mem)
           && bs[0].body[3] == Gep(ly.first, ly.arr, ly.mem / 2)
       else bs[0].body[2] == Gep(ly.first, ly.arr, ly.mem / 2)
  }

  lemma HeaderInPlace(p: string, ly: Layout, bs: seq<Block>, m: Places)
    requires Complete(p, ly, bs, m)
    ensures HeaderThere(ly, bs) && IsAt(m, 0, 0, if ly.bounds then 4 else 3, ly.first)
  {
    var h := HeaderInstrs(ly);
    assert forall t :: 0 <= t < |h| ==> bs[0].body[t] == h[t];
    assert h[0] == Malloc(ly.arr) && h[1] == Memset(ly.arr, ly.mem);
  }

  lemma HeaderStep(base: int, bs: seq<Block>, c: Config, i: Instr, regs: Regs, w: World)
    requires c.At? && c.block == 0 && |bs| > 0 && c.idx < |bs[0].body| && bs[0].body[c.idx] == i
    requires Exec(base, i, c.regs, c.world) == (regs, w)
    ensures StepConfig(base, bs, c) == At(0, c.idx + 1, regs, w)
  {
  }

  lemma HeaderSteps(base: int, ly: Layout, bs: seq<Block>, w: World)
    requires 0 < base && base + ly.mem < WORD && HeaderThere(ly, bs)
    ensures IsTrace(base, bs, HeaderTrace(base, ly, w))
  {
    hide StepConfig, Zeroed;
    var z := Zeroed(w, base, ly.mem);
    var r1 := map[ly.arr := base];
    var r2 := r1[ly.arrmax := base + ly.mem];
    HeaderStep(base, bs, At(0, 0, map[], w), Malloc(ly.arr), r1, w);
    HeaderStep(base, bs, At(0, 1, r1, w), Memset(ly.arr, ly.mem), r1, z);
    if ly.bounds {
      HeaderStep(base, bs, At(0, 2, r1, z), Gep(ly.arrmax, ly.arr, ly.mem), r2, z);
      HeaderStep(base, bs, At(0, 3, r2, z), Gep(ly.first, ly.arr, ly.mem / 2), r2[ly.first := base + ly.mem / 2], z);
    } else {
      HeaderStep(base, bs, At(0, 2, r1, z), Gep(ly.first, ly.arr, ly.mem / 2), r1[ly.first := base + ly.mem / 2], z);
    }
  }

  lemma HeaderTouches(base: int, ly: Layout, bs: seq<Block>, w: World)
    requires HeaderThere(ly, bs)
    ensures var tr := HeaderTrace(base, ly, w);
            && (forall k :: 0 <= k < |tr| - 1 ==> Touched(bs, tr[k]) <= Addresses(base, ly.mem))
            && (forall k :: 0 <= k < |tr| ==> tr[k].At? && tr[k].world.out == w.out)
  {
    hide Addresses, Zeroed;
    ZeroedKeeps(w, base, ly.mem);
  }

  lemma HeaderRuns(p: string, base: int, ly: Layout, bs: seq<Block>, m: Places, w: World)
    requires Fits(p, base, ly) && Complete(p, ly, bs, m) && (ly.bounds ==> ly.mem > 0)
    ensures var tr := HeaderTrace(base, ly, w);
            && IsTrace(base, bs, tr) && tr[0] == Start(w) && |tr| > 1
            && Matches(base, ly, m, SourceStart(base, ly, w), tr[|tr| - 1])
            && (forall k :: 0 <= k < |tr| - 1 ==> Touched(bs, tr[k]) <= Addresses(base, ly.mem))
            && (forall k :: 0 <= k < |tr| ==> tr[k].At? && tr[k].world.out == w.out)
  {
    hide Complete, HeaderThere, IsTrace, Touched, Addresses, Zeroed;
    HeaderInPlace(p, ly, bs, m);
    HeaderSteps(base, ly, bs, w);
    HeaderTouches(base, ly, bs, w);
  }

  /** The blocks are what the compiler makes of p. */
  ghost predicate CompiledFrom(p: string, ly: Layout, bs: seq<Block>) {
    exists m :: Complete(p, ly, bs, m)
  }

  ghost predicate SourceEnds(p: string, s: State, w: World)
    requires s.pc <= |p|
  {
    exists n: nat :: Run(p, s, n).pc == |p| && Run(p, s, n).world == w
  }

  ghost predicate MachineEnds(base: int, bs: seq<Block>, c: Config, w: World) {
    exists k: nat :: RunConfig(base, bs, c, k) == Done(w)
  }

  ghost predicate SourceWrites(p: string, s: State, out: seq<Event>)
    requires s.pc <= |p|
  {
    exists n: nat :: Run(p, s, n).world.out == out
  }

  ghost predicate MachineWrites(base: int, bs: seq<Block>, c: Config, out: seq<Event>) {
    exists k: nat :: RunConfig(base, bs, c, k).world.out == out
  }

  /** Every state from the start is explained, header included. */
  lemma ExplainedFromStart(p: string, base: int, ly: Layout, bs: seq<Block>, m: Places, w: World, k: nat)
    returns (n: nat)
    requires Fits(p, base, ly) && Complete(p, ly, bs, m) && (ly.bounds ==> ly.mem > 0)
    ensures Explains(p, base, ly, Run(p, SourceStart(base, ly, w), n), RunConfig(base, bs, Start(w), k))
  {
    hide Complete, Run, RunConfig, Matches, HeaderTrace, Zeroed;
    HeaderRuns(p, base, ly, bs, m, w);
    var tr := HeaderTrace(base, ly, w);
    var last := |tr| - 1;
    var s := SourceStart(base, ly, w);
    TraceRuns(base, bs, tr, last);
    if k < last {
      TraceRuns(base, bs, tr, k);
      RunNone(p, s);
      ZeroedKeeps(w, base, ly.mem);
      n := 0;
    } else {
      RunConfigThen(base, bs, Start(w), last, k - last);
      n := EveryStepExplained(p, base, ly, bs, m, s, tr[last], k - last);
    }
  }

  lemma ZeroedKeeps(w: World, base: int, len: int)
    ensures Zeroed(w, base, len).out == w.out && Zeroed(w, base, len).freed == w.freed
  {
  }

  // ---------------------------------------------------------------- theorems

  /** Without bounds checks, and with them if the head stays on the tape: what the source does, the
      code does. */
  lemma SourceToMachine(p: string, base: int, ly: Layout, bs: seq<Block>, w: World)
    requires Fits(p, base, ly) && CompiledFrom(p, ly, bs)
    requires ly.bounds ==> ly.mem > 0 && ChecksPass(p, base, ly, SourceStart(base, ly, w))
    ensures forall w' :: SourceEnds(p, SourceStart(base, ly, w), w') ==>
                           MachineEnds(base, bs, Start(w), Ending(base, Halts, w'))
    ensures forall out :: SourceWrites(p, SourceStart(base, ly, w), out) ==> MachineWrites(base, bs, Start(w), out)
  {
    hide Run, RunConfig, Complete, Matches, HeaderTrace, ChecksPass;
    var m :| Complete(p, ly, bs, m);
    HeaderRuns(p, base, ly, bs, m, w);
    var tr, s := HeaderTrace(base, ly, w), SourceStart(base, ly, w);
    var last := |tr| - 1;
    TraceRuns(base, bs, tr, last);
    forall w' | SourceEnds(p, s, w')
      ensures MachineEnds(base, bs, Start(w), Ending(base, Halts, w'))
    {
      var n: nat :| Run(p, s, n).pc == |p| && Run(p, s, n).world == w';
      var j := SourceEndsFirst(p, base, ly, bs, m, s, tr[last], n);
      RunConfigThen(base, bs, Start(w), last, j);
      assert RunConfig(base, bs, Start(w), last + j) == Done(Ending(base, Halts, w'));
    }
    forall out | SourceWrites(p, s, out)
      ensures MachineWrites(base, bs, Start(w), out)
    {
      var n: nat :| Run(p, s, n).world.out == out;
      var j := SourceWritesFirst(p, base, ly, bs, m, s, tr[last], n);
      RunConfigThen(base, bs, Start(w), last, j);
      assert RunConfig(base, bs, Start(w), last + j).world.out == out;
    }
  }

  /** The source ends, and giving back the tape then leads to w. */
  ghost predicate EndsAs(p: string, base: int, s: State, w: World)
    requires s.pc <= |p|
  {
    exists w' :: SourceEnds(p, s, w') && w == Ending(base, Halts, w')
  }

  lemma EndingIsOneToOne(base: int, w: World, w': World)
    requires Ending(base, Halts, w) == Ending(base, Halts, w')
    ensures w == w'
  {
    assert (w.freed + [base])[..|w.freed|] == w.freed && (w'.freed + [base])[..|w'.freed|] == w'.freed;
  }

  lemma EndsAsIff(p: string, base: int, s: State, w: World)
    requires s.pc <= |p| && EndsAs(p, base, s, Ending(base, Halts, w))
    ensures SourceEnds(p, s, w)
  {
    hide SourceEnds, Ending;
    var w' :| SourceEnds(p, s, w') && Ending(base, Halts, w) == Ending(base, Halts, w');
    EndingIsOneToOne(base, w, w');
  }

  lemma {:induction false} SourceFreesNothing(p: string, s: State, n: nat)
    requires s.pc <= |p|
    ensures Run(p, s, n).world.freed == s.world.freed
    decreases n
  {
    if n > 0 && s.pc < |p| {
      SourceFreesNothing(p, Step(p, s), n - 1);
    }
  }

  lemma MachineToSource(p: string, base: int, ly: Layout, bs: seq<Block>, w: World)
    requires Fits(p, base, ly) && CompiledFrom(p, ly, bs)
    requires ly.bounds ==> ly.mem > 0 && ChecksPass(p, base, ly, SourceStart(base, ly, w))
    ensures forall w' :: MachineEnds(base, bs, Start(w), w') ==>
                           EndsAs(p, base, SourceStart(base, ly, w), w') && w'.freed == w.freed + [base]
    ensures forall out :: MachineWrites(base, bs, Start(w), out) ==> SourceWrites(p, SourceStart(base, ly, w), out)
  {
    hide Run, RunConfig, Complete, Matches, HeaderTrace, InTape;
    var m :| Complete(p, ly, bs, m);
    var s := SourceStart(base, ly, w);
    forall w' | MachineEnds(base, bs, Start(w), w')
      ensures EndsAs(p, base, s, w') && w'.freed == w.freed + [base]
    {
      var k: nat :| RunConfig(base, bs, Start(w), k) == Done(w');
      var n := ExplainedFromStart(p, base, ly, bs, m, w, k);
      SourceFreesNothing(p, s, n);
      ZeroedKeeps(w, base, ly.mem);
      assert Run(p, s, n).pc == |p| && Ending(base, Halts, Run(p, s, n).world) == w';
      assert SourceEnds(p, s, Run(p, s, n).world);
    }
    forall out | MachineWrites(base, bs, Start(w), out)
      ensures SourceWrites(p, s, out)
    {
      var k: nat :| RunConfig(base, bs, Start(w), k).world.out == out;
      var n := ExplainedFromStart(p, base, ly, bs, m, w, k);
      assert Run(p, s, n).world.out == out;
    }
  }

  /** Without bounds checks, for every input: the code ends exactly if the source ends, with the same memory,
      input and output, and has given back the tape and nothing else by then; and it writes exactly what the
      source writes, ending or not. */
  lemma CompilerPreservesMeaning(p: string, base: int, ly: Layout, bs: seq<Block>, w: World)
    requires Fits(p, base, ly) && CompiledFrom(p, ly, bs) && !ly.bounds
    ensures SameEnds(p, base, ly, bs, w)
    ensures forall out :: SourceWrites(p, SourceStart(base, ly, w), out) <==> MachineWrites(base, bs, Start(w), out)
  {
    hide SourceEnds, SourceWrites, MachineEnds, MachineWrites, SourceStart, Fits, SameEnds, EndsAs, Ending;
    SourceToMachine(p, base, ly, bs, w);
    MachineToSource(p, base, ly, bs, w);
    EndsAreSame(p, base, ly, bs, w);
  }

  /** The code ends with the world in which the source ends, the tape having been given back once. */
  ghost predicate SameEnds(p: string, base: int, ly: Layout, bs: seq<Block>, w: World) {
    && (forall w' :: SourceEnds(p, SourceStart(base, ly, w), w')
                     <==> MachineEnds(base, bs, Start(w), Ending(base, Halts, w')))
    && forall w' :: MachineEnds(base, bs, Start(w), w') ==> w'.freed == w.freed + [base]
  }

  lemma EndsAreSame(p: string, base: int, ly: Layout, bs: seq<Block>, w: World)
    requires forall w' :: SourceEnds(p, SourceStart(base, ly, w), w') ==>
                            MachineEnds(base, bs, Start(w), Ending(base, Halts, w'))
    requires forall w' :: MachineEnds(base, bs, Start(w), w') ==>
                            EndsAs(p, base, SourceStart(base, ly, w), w') && w'.freed == w.freed + [base]
    ensures SameEnds(p, base, ly, bs, w)
  {
    hide SourceEnds, MachineEnds, Ending, EndsAs;
    forall w' | MachineEnds(base, bs, Start(w), Ending(base, Halts, w'))
      ensures SourceEnds(p, SourceStart(base, ly, w), w')
    {
      EndsAsIff(p, base, SourceStart(base, ly, w), w');
    }
  }

  /** If the head is off the tape at the end of a run of moves, the code says so. */
  lemma {:induction false} MachineComplains(p: string, base: int, ly: Layout, bs: seq<Block>, m: Places, s: State,
                                            c: Config, n: nat)
    returns (k: nat, j: nat)
    requires Fits(p, base, ly) && s.pc <= |p| && Matches(base, ly, m, s, c) && Complete(p, ly, bs, m) && ly.bounds
    requires RunEnds(p, Run(p, s, n).pc) && !InTape(base, ly, Run(p, s, n).head)
    ensures RunConfig(base, bs, c, k).world.out == Run(p, s, j).world.out + [Message]
    decreases n
  {
    hide Follows, Complete, Run, RunConfig, Passes, RunEnds, InTape, Matches;
    var i, tr, o := EveryTokenFollows(p, base, ly, bs, m, s, c);
    var last := |tr| - 1;
    FollowsTrace(p, base, ly, bs, m, s, i, tr, o);
    TraceRuns(base, bs, tr, last);
    if o == LeavesTape {
      k, j := last, i;
    } else if n < i {
      PassesAt(p, base, ly, s, if o == Halts then i + 1 else i, n);
      assert false;
    } else if o == Halts {
      HaltedBefore(p, s, i, n);
      PassesAt(p, base, ly, s, i + 1, i);
      assert false;
    } else {
      NotAtEnd(p, base, ly, bs, m, s, i, tr);
      RunThen(p, s, i, n - i);
      var k', j' := MachineComplains(p, base, ly, bs, m, Run(p, s, i), tr[last], n - i);
      RunConfigThen(base, bs, c, last, k');
      RunThen(p, s, i, j');
      k, j := last + k', i + j';
    }
  }

  /** The source writes bytes only. */
  lemma {:induction false} SourceWritesBytes(p: string, s: State, n: nat)
    requires s.pc <= |p|
    ensures s.world.out <= Run(p, s, n).world.out
    ensures forall i :: |s.world.out| <= i < |Run(p, s, n).world.out| ==> Run(p, s, n).world.out[i].Byte?
    decreases n
  {
    if n > 0 && s.pc < |p| {
      SourceWritesBytes(p, Step(p, s), n - 1);
    }
  }

  /** So it does not write the message that the code writes off the tape. */
  lemma MessageTells(p: string, base: int, ly: Layout, bs: seq<Block>, w: World)
    requires Fits(p, base, ly) && CompiledFrom(p, ly, bs) && ly.bounds && ly.mem > 0
    requires !ChecksPass(p, base, ly, SourceStart(base, ly, w))
    ensures exists out :: MachineWrites(base, bs, Start(w), out) && !SourceWrites(p, SourceStart(base, ly, w), out)
  {
    hide Run, RunConfig, Complete, Matches, HeaderTrace, RunEnds, InTape, Zeroed;
    var m :| Complete(p, ly, bs, m);
    HeaderRuns(p, base, ly, bs, m, w);
    var tr, s := HeaderTrace(base, ly, w), SourceStart(base, ly, w);
    var last := |tr| - 1;
    TraceRuns(base, bs, tr, last);
    var n: nat :| RunEnds(p, Run(p, s, n).pc) && !InTape(base, ly, Run(p, s, n).head);
    var k, j := MachineComplains(p, base, ly, bs, m, s, tr[last], n);
    RunConfigThen(base, bs, Start(w), last, k);
    var out := Run(p, s, j).world.out + [Message];
    assert RunConfig(base, bs, Start(w), last + k).world.out == out;
    SourceWritesBytes(p, s, j);
    assert |out| > |s.world.out| && out[|out| - 1] == Message;
    if SourceWrites(p, s, out) {
      var i: nat :| Run(p, s, i).world.out == out;
      SourceWritesBytes(p, s, i);
      assert false;
    }
  }

  /** With bounds checks: what the source does the code does, if and only if the head is on the tape whenever
      a run of moves has ended. */
  lemma BoundedPreservesMeaning(p: string, base: int, ly: Layout, bs: seq<Block>, w: World)
    requires Fits(p, base, ly) && CompiledFrom(p, ly, bs) && ly.bounds && ly.mem > 0
    ensures ChecksPass(p, base, ly, SourceStart(base, ly, w))
            <==> forall out ::
                SourceWrites(p, SourceStart(base, ly, w), out) <==> MachineWrites(base, bs, Start(w), out)
    ensures ChecksPass(p, base, ly, SourceStart(base, ly, w)) ==> SameEnds(p, base, ly, bs, w)
  {
    hide SourceEnds, SourceWrites, MachineEnds, MachineWrites, Zeroed, Fits, ChecksPass, SameEnds, EndsAs, Ending;
    if ChecksPass(p, base, ly, SourceStart(base, ly, w)) {
      SourceToMachine(p, base, ly, bs, w);
      MachineToSource(p, base, ly, bs, w);
      EndsAreSame(p, base, ly, bs, w);
    } else {
      MessageTells(p, base, ly, bs, w);
    }
  }

  lemma {:induction false} TouchesTapeFrom(p: string, base: int, ly: Layout, bs: seq<Block>, m: Places, s: State,
                                           c: Config, k: nat)
    requires Fits(p, base, ly) && s.pc <= |p| && Matches(base, ly, m, s, c) && Complete(p, ly, bs, m) && ly.bounds
    ensures Touched(bs, RunConfig(base, bs, c, k)) <= Addresses(base, ly.mem)
    decreases k
  {
    hide Follows, Complete, Run, RunConfig, Touched;
    var i, tr, o := EveryTokenFollows(p, base, ly, bs, m, s, c);
    var last := |tr| - 1;
    FollowsTrace(p, base, ly, bs, m, s, i, tr, o);
    TraceRuns(base, bs, tr, last);
    if k < last {
      TraceRuns(base, bs, tr, k);
    } else if o == GoesOn {
      NotAtEnd(p, base, ly, bs, m, s, i, tr);
      TouchesTapeFrom(p, base, ly, bs, m, Run(p, s, i), tr[last], k - last);
      RunConfigThen(base, bs, c, last, k - last);
    } else {
      RunConfigThen(base, bs, c, last, k - last);
      RunConfigDone(base, bs, tr[last], k - last);
      DoneTouchesNothing(bs, tr[last]);
    }
  }

  lemma DoneTouchesNothing(bs: seq<Block>, c: Config)
    requires c.Done?
    ensures Touched(bs, c) == {}
  {
  }

  /** With bounds checks and a tape that is not empty, no step of any run loads or stores outside
      the tape; and every run does what the source does until the head has left the tape at the end
      of a stretch of moves, when it says so and ends. */
  lemma BoundsKeepToTape(p: string, base: int, ly: Layout, bs: seq<Block>, w: World, k: nat)
    requires Fits(p, base, ly) && CompiledFrom(p, ly, bs) && ly.bounds && ly.mem > 0
    ensures Touched(bs, RunConfig(base, bs, Start(w), k)) <= Addresses(base, ly.mem)
    ensures exists n: nat ::
              Explains(p, base, ly, Run(p, SourceStart(base, ly, w), n), RunConfig(base, bs, Start(w), k))
  {
    hide Run, RunConfig, Complete, Matches, HeaderTrace, Touched, Explains;
    var m :| Complete(p, ly, bs, m);
    HeaderRuns(p, base, ly, bs, m, w);
    var tr, s := HeaderTrace(base, ly, w), SourceStart(base, ly, w);
    var last := |tr| - 1;
    TraceRuns(base, bs, tr, last);
    var n := ExplainedFromStart(p, base, ly, bs, m, w, k);
    if k < last {
      TraceRuns(base, bs, tr, k);
    } else {
      RunConfigThen(base, bs, Start(w), last, k - last);
      TouchesTapeFrom(p, base, ly, bs, m, s, tr[last], k - last);
    }
  }
}
