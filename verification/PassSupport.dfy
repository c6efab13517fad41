// PassSupport.h: every pass has an initialiser that runs once, however many threads ask for it and
// however the initialisers of its dependencies nest.  Threads take turns in any order.
module PassSupport {
  import opened Maps
  import opened Sets
  import opened Sums

  type Pass(==, 0, !new)
  type Thread(==, 0, !new)

  // ---------------------------------------------------------------- initialisers

  /** The three kinds of macros: a pass with dependencies; an analysis group with its default pass; a
      member of a group, which initialises the group unless it is the default. */
  datatype Init =
    | InitializePass(deps: seq<Pass>)
    | InitializeAnalysisGroup(default: Pass)
    | InitializeAgPass(group: Pass, isDefault: bool, deps: seq<Pass>)
  {
    /** What the body initialises first, in order. */
    function Deps(): seq<Pass> {
      match this
      case InitializePass(deps) => deps
      case InitializeAnalysisGroup(d) => [d]
      case InitializeAgPass(group, isDefault, deps) => (if isDefault then [] else [group]) + deps
    }

    /** How many entries it then makes in the registry. */
    function Regs(): nat {
      if InitializeAgPass? then 2 else 1
    }

    function Length(): nat {
      |Deps()| + Regs()
    }
  }

  type System = map<Pass, Init>

  /** A pass needs its dependencies, a group its default pass, and a member its group as well, unless it is
      the default itself. */
  predicate DependsOn(sys: System, p: Pass, d: Pass) {
    && p in sys
    && match sys[p]
       case InitializePass(deps) => d in deps
       case InitializeAnalysisGroup(default) => d == default
       case InitializeAgPass(group, isDefault, deps) => (!isDefault && d == group) || d in deps
  }

  /** Entry 0 is the one of the pass or the group; a member of a group has another one, for the group. */
  predicate MakesEntry(sys: System, p: Pass, k: nat) {
    p in sys && (k == 0 || (k == 1 && sys[p].InitializeAgPass?))
  }

  ghost predicate WellFormed(sys: System) {
    forall p, d {:trigger DependsOn(sys, p, d)} :: DependsOn(sys, p, d) ==> d in sys
  }

  /** The body asks for what the pass depends on, and makes its entries. */
  lemma BodyIs(sys: System, p: Pass)
    requires p in sys
    ensures forall i :: 0 <= i < |sys[p].Deps()| ==> DependsOn(sys, p, sys[p].Deps()[i])
    ensures forall d :: DependsOn(sys, p, d) ==> d in sys[p].Deps()
    ensures forall k: nat :: MakesEntry(sys, p, k) <==> k < sys[p].Regs()
  {
    if sys[p].InitializeAgPass? && !sys[p].isDefault {
      assert sys[p].Deps() == [sys[p].group] + sys[p].deps;
      assert forall i :: 0 <= i < |sys[p].deps| ==> sys[p].Deps()[i + 1] == sys[p].deps[i];
    }
  }

  // ---------------------------------------------------------------- threads

  /** Where in CALL_ONCE_INITIALIZATION a call is: before the compare-and-swap, in the spin loop, or
      about to do step n of the body. */
  datatype Pc = Entering | Spinning | Running(n: nat)

  datatype Call = Call(pass: Pass, pc: Pc)

  /** The k-th registration of a pass. */
  datatype Entry = Entry(pass: Pass, k: nat)

  /** `owner` is a history variable: the thread and the call that won the compare-and-swap. */
  datatype State = State(flags: map<Pass, int>, registry: seq<Entry>, threads: map<Thread, seq<Call>>,
                         started: seq<Pass>,
                         owner: map<Pass, (Thread, nat)>)

  function Flag(s: State, p: Pass): int {
    if p in s.flags then s.flags[p] else 0
  }

  function Initial(): State {
    State(map[], [], map[], [], map[])
  }

  function Top(stack: seq<Call>): Call
    requires stack != []
  {
    stack[|stack| - 1]
  }

  predicate Busy(s: State, t: Thread) {
    t in s.threads && s.threads[t] != []
  }

  /** The top call of t goes to pc. */
  function Goto(s: State, t: Thread, pc: Pc): State
    requires Busy(s, t)
  {
    var stack := s.threads[t];
    s.(threads := s.threads[t := stack[|stack| - 1 := Top(stack).(pc := pc)]])
  }

  function Return(s: State, t: Thread): State
    requires Busy(s, t)
  {
    s.(threads := s.threads[t := s.threads[t][..|s.threads[t]| - 1]])
  }

  /** The next step of t: the compare-and-swap, a read of the flag, a nested call, a registration, or the
      end of the body. */
  function Fire(sys: System, s: State, t: Thread): State
    requires Busy(s, t) && Top(s.threads[t]).pass in sys
  {
    var stack := s.threads[t];
    var c := Top(stack);
    match c.pc
    case Entering =>
      if Flag(s, c.pass) == 0 then
        Goto(s, t, Running(0)).(flags := s.flags[c.pass := 1], started := s.started + [c.pass],
                                owner := s.owner[c.pass := (t, |stack| - 1)])
      else Goto(s, t, Spinning)
    case Spinning => if Flag(s, c.pass) == 2 then Return(s, t) else s
    case Running(n) =>
      var deps := sys[c.pass].Deps();
      if n < |deps| then
        var s1 := Goto(s, t, Running(n + 1));
        s1.(threads := s1.threads[t := s1.threads[t] + [Call(deps[n], Entering)]])
      else if n < sys[c.pass].Length()
        then Goto(s, t, Running(n + 1)).(registry := s.registry + [Entry(c.pass, n - |deps|)])
      else Return(s, t).(flags := s.flags[c.pass := 2])
  }

  /** An idle thread asks for a pass. */
  function Ask(s: State, t: Thread, p: Pass): State {
    s.(threads := s.threads[t := [Call(p, Entering)]])
  }

  ghost predicate Next(sys: System, s: State, s': State) {
    || (exists t :: Busy(s, t) && Top(s.threads[t]).pass in sys && s' == Fire(sys, s, t))
    || (exists t, p {:trigger Ask(s, t, p)} :: !Busy(s, t) && p in sys && s' == Ask(s, t, p))
  }

  ghost predicate IsRun(sys: System, run: seq<State>) {
    run != [] && run[0] == Initial()
      && forall i {:trigger run[i]} :: 0 <= i < |run| - 1 ==> Next(sys, run[i], run[i + 1])
  }

  ghost predicate Reachable(sys: System, s: State) {
    exists run :: IsRun(sys, run) && s in run
  }

  /** Is the next step of t the return from its call? */
  predicate Returns(sys: System, s: State, t: Thread)
    requires Busy(s, t) && Top(s.threads[t]).pass in sys
  {
    |Fire(sys, s, t).threads[t]| < |s.threads[t]|
  }

  ghost predicate Idle(s: State) {
    forall t {:trigger Busy(s, t)} :: !Busy(s, t)
  }

  // ---------------------------------------------------------------- the invariant

  predicate IsCall(s: State, t: Thread, i: int, c: Call) {
    t in s.threads && 0 <= i < |s.threads[t]| && s.threads[t][i] == c
  }

  /** Every entry of the pass has been made. */
  ghost predicate Registered(sys: System, s: State, p: Pass) {
    p in sys && forall k: nat {:trigger Entry(p, k)} :: MakesEntry(sys, p, k) ==> Entry(p, k) in s.registry
  }

  /** A call with its place: the calls below the top are in their bodies, and the call above one is for
      the dependency it has asked for last; all before that are finished. */
  ghost predicate CallOk(sys: System, s: State, t: Thread, i: int)
    requires t in s.threads && 0 <= i < |s.threads[t]|
  {
    var c := s.threads[t][i];
    var top := i == |s.threads[t]| - 1;
    && c.pass in sys && (!top ==> c.pc.Running?)
    && (c.pc.Spinning? ==> Flag(s, c.pass) != 0)
    && (c.pc.Running? ==>
          && c.pc.n <= sys[c.pass].Length() && Flag(s, c.pass) == 1 && c.pass in s.owner && s.owner[c.pass] == (t, i)
          && (forall k :: 0 <= k < (if top then c.pc.n else c.pc.n - 1) && k < |sys[c.pass].Deps()| ==>
               Flag(s, sys[c.pass].Deps()[k]) == 2)
          && (!top ==> 0 < c.pc.n <= |sys[c.pass].Deps()| && s.threads[t][i + 1].pass == sys[c.pass].Deps()[c.pc.n - 1])
          && forall k: nat :: Entry(c.pass, k) in s.registry <==> k < c.pc.n - |sys[c.pass].Deps()|)
  }

  ghost predicate CallsOk(sys: System, s: State) {
    forall t, i {:trigger CallOk(sys, s, t, i)} :: t in s.threads && 0 <= i < |s.threads[t]| ==> CallOk(sys, s, t, i)
  }

  /** The flag of a pass says how far its initialiser is. */
  ghost predicate FlagOk(sys: System, s: State, p: Pass) {
    && (Flag(s, p) == 0 || Flag(s, p) == 1 || Flag(s, p) == 2)
    && (Flag(s, p) == 0 <==> p !in s.started)
    && (Flag(s, p) == 0 ==> forall k: nat :: Entry(p, k) !in s.registry)
    && (Flag(s, p) == 1 ==> p in s.owner && exists n :: IsCall(s, s.owner[p].0, s.owner[p].1, Call(p, Running(n))))
    && (Flag(s, p) == 2 ==> Registered(sys, s, p))
  }

  ghost predicate FlagsOk(sys: System, s: State) {
    forall p {:trigger FlagOk(sys, s, p)} :: FlagOk(sys, s, p)
  }

  /** An entry is one that its pass makes, and comes after those it makes before and all those of what the
      pass depends on. */
  ghost predicate EntryOk(sys: System, before: seq<Entry>, e: Entry) {
    && MakesEntry(sys, e.pass, e.k) && (e.k > 0 ==> Entry(e.pass, e.k - 1) in before)
    && forall d, k: nat {:trigger Entry(d, k)} ::
         DependsOn(sys, e.pass, d) && MakesEntry(sys, d, k) ==> Entry(d, k) in before
  }

  /** Entries are made once, and in order. */
  ghost predicate RegistryOk(sys: System, s: State) {
    && (forall i, j :: 0 <= i < j < |s.registry| ==> s.registry[i] != s.registry[j])
    && forall i {:trigger s.registry[i]} :: 0 <= i < |s.registry| ==> EntryOk(sys, s.registry[..i], s.registry[i])
  }

  ghost predicate StartedOnce(s: State) {
    forall i, j :: 0 <= i < j < |s.started| ==> s.started[i] != s.started[j]
  }

  ghost predicate Inv(sys: System, s: State) {
    CallsOk(sys, s) && FlagsOk(sys, s) && RegistryOk(sys, s) && StartedOnce(s)
  }

  // ---------------------------------------------------------------- every step keeps it

  /** Flags do not go back, and what belongs to a running call stays. */
  ghost predicate Kept(sys: System, s: State, s': State, c: Call) {
    && (Flag(s, c.pass) != 0 ==> Flag(s', c.pass) != 0)
    && (forall x {:trigger Flag(s', x)} :: Flag(s, x) == 2 ==> Flag(s', x) == 2)
    && (c.pc.Running? ==>
          && Flag(s', c.pass) == Flag(s, c.pass) && c.pass in s'.owner
             && (c.pass in s.owner ==> s'.owner[c.pass] == s.owner[c.pass])
          && forall k: nat {:trigger Entry(c.pass, k)} ::
               Entry(c.pass, k) in s'.registry <==> Entry(c.pass, k) in s.registry)
  }

  lemma CallKept(sys: System, s: State, s': State, t: Thread, i: int)
    requires t in s.threads && 0 <= i < |s.threads[t]| && CallOk(sys, s, t, i)
    requires t in s'.threads && i < |s'.threads[t]| && s'.threads[t][i] == s.threads[t][i]
             && Kept(sys, s, s', s.threads[t][i])
    requires i == |s.threads[t]| - 1 <==> i == |s'.threads[t]| - 1
    requires i < |s.threads[t]| - 1 ==> s'.threads[t][i + 1].pass == s.threads[t][i + 1].pass
    ensures CallOk(sys, s', t, i)
  {
    var deps := if s.threads[t][i].pass in sys then sys[s.threads[t][i].pass].Deps() else [];
    assert forall k :: 0 <= k < |deps| && Flag(s, deps[k]) == 2 ==> Flag(s', deps[k]) == 2;
  }

  /** The call below returns: the dependency it asked for is finished. */
  lemma CallResumes(sys: System, s: State, s': State, t: Thread, i: int)
    requires t in s.threads && i == |s.threads[t]| - 2 && i >= 0 && CallOk(sys, s, t, i)
    requires t in s'.threads && s'.threads[t] == s.threads[t][..i + 1] && Kept(sys, s, s', s.threads[t][i])
    requires Flag(s', s.threads[t][i + 1].pass) == 2
    ensures CallOk(sys, s', t, i)
  {
    var c := s.threads[t][i];
    var deps := sys[c.pass].Deps();
    forall k | 0 <= k < c.pc.n && k < |deps|
      ensures Flag(s', deps[k]) == 2
    {
      if k < c.pc.n - 1 {
        assert Flag(s, deps[k]) == 2;
      }
    }
  }

  lemma FlagKept(sys: System, s: State, s': State, p: Pass)
    requires FlagOk(sys, s, p) && Flag(s', p) == Flag(s, p) && (p in s'.started <==> p in s.started)
    requires forall k: nat {:trigger Entry(p, k)} :: Entry(p, k) in s.registry ==> Entry(p, k) in s'.registry
    requires Flag(s, p) == 0 ==> forall k: nat {:trigger Entry(p, k)} :: Entry(p, k) in s'.registry ==>
               Entry(p, k) in s.registry
    requires Flag(s, p) == 1 ==>
               p in s'.owner && exists n :: IsCall(s', s'.owner[p].0, s'.owner[p].1, Call(p, Running(n)))
    ensures FlagOk(sys, s', p)
  {
  }

  lemma RegistryKept(sys: System, s: State, s': State)
    requires RegistryOk(sys, s) && s'.registry == s.registry
    ensures RegistryOk(sys, s')
  {
  }

  /** Where a running call is after a step that leaves it running, at the same place. */
  lemma RunningKept(s: State, s': State, p: Pass)
    requires p in s.owner && p in s'.owner && s'.owner[p] == s.owner[p]
    requires exists n :: IsCall(s, s.owner[p].0, s.owner[p].1, Call(p, Running(n)))
    requires var t, i := s.owner[p].0, s.owner[p].1;
             t in s.threads && i < |s.threads[t]| ==>
               t in s'.threads && i < |s'.threads[t]|
               && (s.threads[t][i].pc.Running? ==>
                    s'.threads[t][i].pass == s.threads[t][i].pass && s'.threads[t][i].pc.Running?)
    ensures exists n :: IsCall(s', s'.owner[p].0, s'.owner[p].1, Call(p, Running(n)))
  {
    var t, i := s.owner[p].0, s.owner[p].1;
    var n :| IsCall(s, t, i, Call(p, Running(n)));
    assert IsCall(s', t, i, Call(p, Running(s'.threads[t][i].pc.n)));
  }

  /** The compare-and-swap succeeds. */
  lemma EnterKeeps(sys: System, s: State, t: Thread)
    requires Inv(sys, s) && Busy(s, t) && Top(s.threads[t]).pass in sys && Top(s.threads[t]).pc.Entering?
    requires Flag(s, Top(s.threads[t]).pass) == 0
    ensures Inv(sys, Fire(sys, s, t))
  {
    hide RegistryOk;
    var s' := Fire(sys, s, t);
    var m := |s.threads[t]| - 1;
    var p := s.threads[t][m].pass;
    assert FlagOk(sys, s, p);
    forall u, i | u in s'.threads && 0 <= i < |s'.threads[u]|
      ensures CallOk(sys, s', u, i)
    {
      assert CallOk(sys, s, u, i);
      if u != t || i != m {
        CallKept(sys, s, s', u, i);
      }
    }
    forall x
      ensures FlagOk(sys, s', x)
    {
      assert FlagOk(sys, s, x);
      if x == p {
        assert IsCall(s', t, m, Call(p, Running(0)));
      } else {
        if Flag(s, x) == 1 {
          RunningKept(s, s', x);
        }
        FlagKept(sys, s, s', x);
      }
    }
    RegistryKept(sys, s, s');
  }

  /** The compare-and-swap fails. */
  lemma SpinKeeps(sys: System, s: State, t: Thread)
    requires Inv(sys, s) && Busy(s, t) && Top(s.threads[t]).pass in sys && Top(s.threads[t]).pc.Entering?
    requires Flag(s, Top(s.threads[t]).pass) != 0
    ensures Inv(sys, Fire(sys, s, t))
  {
    hide RegistryOk;
    var s' := Fire(sys, s, t);
    var m := |s.threads[t]| - 1;
    forall u, i | u in s'.threads && 0 <= i < |s'.threads[u]|
      ensures CallOk(sys, s', u, i)
    {
      assert CallOk(sys, s, u, i);
      if u != t || i != m {
        CallKept(sys, s, s', u, i);
      }
    }
    forall x
      ensures FlagOk(sys, s', x)
    {
      assert FlagOk(sys, s, x);
      if Flag(s, x) == 1 {
        RunningKept(s, s', x);
      }
      FlagKept(sys, s, s', x);
    }
    RegistryKept(sys, s, s');
  }

  /** The spin loop sees that the pass is finished. */
  lemma SpunKeeps(sys: System, s: State, t: Thread)
    requires Inv(sys, s) && Busy(s, t) && Top(s.threads[t]).pass in sys && Top(s.threads[t]).pc.Spinning?
    requires Flag(s, Top(s.threads[t]).pass) == 2
    ensures Inv(sys, Fire(sys, s, t))
  {
    hide RegistryOk;
    var s' := Fire(sys, s, t);
    var m := |s.threads[t]| - 1;
    forall u, i | u in s'.threads && 0 <= i < |s'.threads[u]|
      ensures CallOk(sys, s', u, i)
    {
      assert CallOk(sys, s, u, i);
      if u == t && i == m - 1 {
        CallResumes(sys, s, s', t, i);
      } else {
        CallKept(sys, s, s', u, i);
      }
    }
    forall x
      ensures FlagOk(sys, s', x)
    {
      assert FlagOk(sys, s, x);
      if Flag(s, x) == 1 {
        var n :| IsCall(s, s.owner[x].0, s.owner[x].1, Call(x, Running(n)));
        assert IsCall(s', s.owner[x].0, s.owner[x].1, Call(x, Running(n)));
      }
      FlagKept(sys, s, s', x);
    }
    RegistryKept(sys, s, s');
  }

  lemma NestedCall(sys: System, s: State, t: Thread, i: int)
    requires WellFormed(sys) && CallsOk(sys, s) && Busy(s, t) && Top(s.threads[t]).pass in sys
             && Top(s.threads[t]).pc.Running?
    requires Top(s.threads[t]).pc.n < |sys[Top(s.threads[t]).pass].Deps()| && |s.threads[t]| - 1 <= i <= |s.threads[t]|
    ensures t in Fire(sys, s, t).threads && i < |Fire(sys, s, t).threads[t]| && CallOk(sys, Fire(sys, s, t), t, i)
  {
    var m := |s.threads[t]| - 1;
    var c := s.threads[t][m];
    assert CallOk(sys, s, t, m);
    BodyIs(sys, c.pass);
    assert DependsOn(sys, c.pass, sys[c.pass].Deps()[c.pc.n]);
    assert Fire(sys, s, t).threads[t][m + 1] == Call(sys[c.pass].Deps()[c.pc.n], Entering);
  }

  /** What asking for a dependency changes. */
  lemma NestedIs(sys: System, s: State, t: Thread)
    requires WellFormed(sys) && Busy(s, t) && Top(s.threads[t]).pass in sys && Top(s.threads[t]).pc.Running?
    requires Top(s.threads[t]).pc.n < |sys[Top(s.threads[t]).pass].Deps()|
    ensures var s', stack, c := Fire(sys, s, t), s.threads[t], Top(s.threads[t]);
            && s'.flags == s.flags && s'.registry == s.registry && s'.started == s.started && s'.owner == s.owner
            && s'.threads.Keys == s.threads.Keys
               && (forall u :: u in s.threads && u != t ==> s'.threads[u] == s.threads[u])
            && s'.threads[t]
               == stack[|stack| - 1 := c.(pc := Running(c.pc.n + 1))] + [Call(sys[c.pass].Deps()[c.pc.n], Entering)]
  {
  }

  lemma NestedCalls(sys: System, s: State, t: Thread)
    requires WellFormed(sys) && CallsOk(sys, s) && Busy(s, t) && Top(s.threads[t]).pass in sys
             && Top(s.threads[t]).pc.Running?
    requires Top(s.threads[t]).pc.n < |sys[Top(s.threads[t]).pass].Deps()|
    ensures CallsOk(sys, Fire(sys, s, t))
  {
    hide WellFormed, CallOk, Fire;
    var s' := Fire(sys, s, t);
    var m := |s.threads[t]| - 1;
    NestedIs(sys, s, t);
    forall u, i | u in s'.threads && 0 <= i < |s'.threads[u]|
      ensures CallOk(sys, s', u, i)
    {
      if u != t || i < m {
        assert CallOk(sys, s, u, i);
        KeptSame(sys, s, s', u, i);
        CallKept(sys, s, s', u, i);
      } else {
        NestedCall(sys, s, t, i);
      }
    }
  }

  lemma KeptSame(sys: System, s: State, s': State, u: Thread, i: int)
    requires u in s.threads && 0 <= i < |s.threads[u]| && CallOk(sys, s, u, i)
    requires s'.flags == s.flags && s'.registry == s.registry && s'.owner == s.owner
    ensures Kept(sys, s, s', s.threads[u][i])
  {
  }

  lemma NestedFlags(sys: System, s: State, t: Thread)
    requires WellFormed(sys) && FlagsOk(sys, s) && Busy(s, t) && Top(s.threads[t]).pass in sys
             && Top(s.threads[t]).pc.Running?
    requires Top(s.threads[t]).pc.n < |sys[Top(s.threads[t]).pass].Deps()|
    ensures FlagsOk(sys, Fire(sys, s, t))
  {
    hide WellFormed, Fire, Registered;
    var s' := Fire(sys, s, t);
    NestedIs(sys, s, t);
    forall x
      ensures FlagOk(sys, s', x)
    {
      assert FlagOk(sys, s, x);
      if Flag(s, x) == 1 {
        RunningKept(s, s', x);
      }
      FlagKept(sys, s, s', x);
    }
  }

  /** A dependency is asked for. */
  lemma NestedKeeps(sys: System, s: State, t: Thread)
    requires WellFormed(sys) && Inv(sys, s) && Busy(s, t) && Top(s.threads[t]).pass in sys
             && Top(s.threads[t]).pc.Running?
    requires Top(s.threads[t]).pc.n < |sys[Top(s.threads[t]).pass].Deps()|
    ensures Inv(sys, Fire(sys, s, t))
  {
    hide RegistryOk, CallsOk, FlagsOk, WellFormed, Fire;
    NestedIs(sys, s, t);
    NestedCalls(sys, s, t);
    NestedFlags(sys, s, t);
    RegistryKept(sys, s, Fire(sys, s, t));
  }

  ghost predicate Registers(sys: System, s: State, t: Thread)
    requires Busy(s, t)
  {
    var c := Top(s.threads[t]);
    c.pass in sys && c.pc.Running? && |sys[c.pass].Deps()| <= c.pc.n < sys[c.pass].Length()
  }

  lemma RegisterCalls(sys: System, s: State, t: Thread)
    requires CallsOk(sys, s) && Busy(s, t) && Registers(sys, s, t)
    ensures CallsOk(sys, Fire(sys, s, t))
  {
    var s' := Fire(sys, s, t);
    var m := |s.threads[t]| - 1;
    var c := s.threads[t][m];
    var e := Entry(c.pass, c.pc.n - |sys[c.pass].Deps()|);
    assert CallOk(sys, s, t, m);
    assert forall x :: x in s'.registry <==> x in s.registry || x == e;
    forall u, i | u in s'.threads && 0 <= i < |s'.threads[u]|
      ensures CallOk(sys, s', u, i)
    {
      assert CallOk(sys, s, u, i);
      if u != t || i != m {
        CallKept(sys, s, s', u, i);
      }
    }
  }

  lemma RegisterFlags(sys: System, s: State, t: Thread)
    requires CallsOk(sys, s) && FlagsOk(sys, s) && Busy(s, t) && Registers(sys, s, t)
    ensures FlagsOk(sys, Fire(sys, s, t))
  {
    hide CallsOk;
    var s' := Fire(sys, s, t);
    var m := |s.threads[t]| - 1;
    var c := s.threads[t][m];
    var e := Entry(c.pass, c.pc.n - |sys[c.pass].Deps()|);
    TopCall(sys, s, t);
    assert forall x :: x in s'.registry <==> x in s.registry || x == e;
    forall x
      ensures FlagOk(sys, s', x)
    {
      assert FlagOk(sys, s, x);
      if Flag(s, x) == 1 {
        RunningKept(s, s', x);
      }
      FlagKept(sys, s, s', x);
    }
  }

  lemma TopCall(sys: System, s: State, t: Thread)
    requires CallsOk(sys, s) && Busy(s, t)
    ensures CallOk(sys, s, t, |s.threads[t]| - 1)
  {
  }

  /** An entry is made. */
  lemma RegisterKeeps(sys: System, s: State, t: Thread)
    requires WellFormed(sys) && Inv(sys, s) && Busy(s, t) && Registers(sys, s, t)
    ensures Inv(sys, Fire(sys, s, t))
  {
    hide RegistryOk, CallsOk, FlagsOk;
    var m := |s.threads[t]| - 1;
    var c := s.threads[t][m];
    TopCall(sys, s, t);
    RegisterCalls(sys, s, t);
    RegisterFlags(sys, s, t);
    BodyIs(sys, c.pass);
    EntryAdded(sys, s, Fire(sys, s, t), Entry(c.pass, c.pc.n - |sys[c.pass].Deps()|));
  }

  lemma EntryAdded(sys: System, s: State, s': State, e: Entry)
    requires RegistryOk(sys, s) && s'.registry == s.registry + [e] && e !in s.registry && MakesEntry(sys, e.pass, e.k)
    requires e.k > 0 ==> Entry(e.pass, e.k - 1) in s.registry
    requires FlagsOk(sys, s) && forall d :: DependsOn(sys, e.pass, d) ==> Flag(s, d) == 2
    ensures RegistryOk(sys, s')
  {
    hide DependsOn, MakesEntry;
    var n := |s.registry|;
    forall i | 0 <= i < |s'.registry|
      ensures EntryOk(sys, s'.registry[..i], s'.registry[i])
    {
      if i < n {
        assert s'.registry[i] == s.registry[i] && s'.registry[..i] == s.registry[..i];
      } else {
        assert s'.registry[..i] == s.registry;
        forall d, k: nat | DependsOn(sys, e.pass, d) && MakesEntry(sys, d, k)
          ensures Entry(d, k) in s.registry
        {
          assert FlagOk(sys, s, d);
        }
      }
    }
  }

  /** The body ends. */
  lemma FinishKeeps(sys: System, s: State, t: Thread)
    requires Inv(sys, s) && Busy(s, t) && Top(s.threads[t]).pass in sys && Top(s.threads[t]).pc.Running?
    requires Top(s.threads[t]).pc.n >= sys[Top(s.threads[t]).pass].Length()
    ensures Inv(sys, Fire(sys, s, t)) && Registered(sys, Fire(sys, s, t), Top(s.threads[t]).pass)
  {
    hide RegistryOk;
    var s' := Fire(sys, s, t);
    var m := |s.threads[t]| - 1;
    var p := s.threads[t][m].pass;
    assert CallOk(sys, s, t, m);
    forall u, i | u in s'.threads && 0 <= i < |s'.threads[u]|
      ensures CallOk(sys, s', u, i)
    {
      assert CallOk(sys, s, u, i);
      if u == t && i == m - 1 {
        CallResumes(sys, s, s', t, i);
      } else {
        CallKept(sys, s, s', u, i);
      }
    }
    forall x
      ensures FlagOk(sys, s', x)
    {
      assert FlagOk(sys, s, x);
      if x != p {
        if Flag(s, x) == 1 {
          var n :| IsCall(s, s.owner[x].0, s.owner[x].1, Call(x, Running(n)));
          assert IsCall(s', s.owner[x].0, s.owner[x].1, Call(x, Running(n)));
        }
        FlagKept(sys, s, s', x);
      }
    }
    RegistryKept(sys, s, s');
  }

  lemma AskKeeps(sys: System, s: State, t: Thread, p: Pass)
    requires Inv(sys, s) && !Busy(s, t) && p in sys
    ensures Inv(sys, Ask(s, t, p))
  {
    hide RegistryOk;
    var s' := Ask(s, t, p);
    forall u, i | u in s'.threads && 0 <= i < |s'.threads[u]|
      ensures CallOk(sys, s', u, i)
    {
      if u != t {
        assert CallOk(sys, s, u, i);
        CallKept(sys, s, s', u, i);
      }
    }
    forall x
      ensures FlagOk(sys, s', x)
    {
      assert FlagOk(sys, s, x);
      if Flag(s, x) == 1 {
        var n :| IsCall(s, s.owner[x].0, s.owner[x].1, Call(x, Running(n)));
        assert IsCall(s', s.owner[x].0, s.owner[x].1, Call(x, Running(n)));
      }
      FlagKept(sys, s, s', x);
    }
    RegistryKept(sys, s, s');
  }

  lemma FireKeeps(sys: System, s: State, t: Thread)
    requires WellFormed(sys) && Inv(sys, s) && Busy(s, t) && Top(s.threads[t]).pass in sys
    ensures Inv(sys, Fire(sys, s, t))
  {
    hide Inv, Fire;
    var c := Top(s.threads[t]);
    match c.pc
    case Entering => if Flag(s, c.pass) == 0 { EnterKeeps(sys, s, t); } else { SpinKeeps(sys, s, t); }
    case Spinning => if Flag(s, c.pass) == 2 { SpunKeeps(sys, s, t); } else { Blocked(sys, s, t); }
    case Running(n) =>
      if n < |sys[c.pass].Deps()| {
        NestedKeeps(sys, s, t);
      } else if n < sys[c.pass].Length() {
        assert Registers(sys, s, t);
        RegisterKeeps(sys, s, t);
      } else {
        FinishKeeps(sys, s, t);
      }
  }

  lemma Blocked(sys: System, s: State, t: Thread)
    requires Busy(s, t) && Top(s.threads[t]).pass in sys
    ensures Fire(sys, s, t) == s <==> Top(s.threads[t]).pc.Spinning? && Flag(s, Top(s.threads[t]).pass) != 2
  {
    var stack := s.threads[t];
    var c := Top(stack);
    var s' := Fire(sys, s, t);
    if !(c.pc.Spinning? && Flag(s, c.pass) != 2) {
      if c.pc.Running? && c.pc.n < sys[c.pass].Length() {
        assert s'.threads[t][|stack| - 1].pc == Running(c.pc.n + 1);
      } else if c.pc.Entering? {
        assert s'.threads[t][|stack| - 1].pc != Entering;
      } else {
        assert |s'.threads[t]| < |stack|;
      }
    }
  }

  // ---------------------------------------------------------------- what holds in every run

  lemma NextKeeps(sys: System, s: State, s': State)
    requires WellFormed(sys) && Inv(sys, s) && Next(sys, s, s')
    ensures Inv(sys, s')
  {
    hide Inv, Fire, Ask;
    if t :| Busy(s, t) && Top(s.threads[t]).pass in sys && s' == Fire(sys, s, t) {
      FireKeeps(sys, s, t);
    } else {
      var t, p :| !Busy(s, t) && p in sys && s' == Ask(s, t, p);
      AskKeeps(sys, s, t, p);
    }
  }

  lemma {:induction false} RunKeeps(sys: System, run: seq<State>, n: nat)
    requires WellFormed(sys) && IsRun(sys, run) && n < |run|
    ensures Inv(sys, run[n])
    decreases n
  {
    hide Next;
    if n > 0 {
      RunKeeps(sys, run, n - 1);
      assert Next(sys, run[n - 1], run[n - 1 + 1]);
      NextKeeps(sys, run[n - 1], run[n]);
    }
  }

  /** All entries of a pass: its own, and in its group if it is a member of one. */
  ghost predicate AllMade(sys: System, entries: seq<Entry>, p: Pass) {
    && p in sys && Entry(p, 0) in entries && (sys[p].InitializeAgPass? ==> Entry(p, 1) in entries)
  }

  /** All that the initialiser of p needs has been registered: its dependencies; for a group, its default
      pass; for a member that is not the default, its group. */
  ghost predicate NeedsMade(sys: System, entries: seq<Entry>, p: Pass) {
    && p in sys
    && match sys[p]
       case InitializePass(deps) => forall d :: d in deps ==> AllMade(sys, entries, d)
       case InitializeAnalysisGroup(default) => AllMade(sys, entries, default)
       case InitializeAgPass(group, isDefault, deps) =>
         (!isDefault ==> AllMade(sys, entries, group)) && forall d :: d in deps ==> AllMade(sys, entries, d)
  }

  lemma NeedsAreMade(sys: System, entries: seq<Entry>, p: Pass)
    requires WellFormed(sys) && p in sys
    requires forall d, k: nat {:trigger Entry(d, k)} ::
               DependsOn(sys, p, d) && MakesEntry(sys, d, k) ==> Entry(d, k) in entries
    ensures NeedsMade(sys, entries, p)
  {
    forall d | DependsOn(sys, p, d)
      ensures AllMade(sys, entries, d)
    {
      assert MakesEntry(sys, d, 0);
    }
  }

  /** In every reachable state: each initialiser has been started at most once; each entry is one that its
      pass makes and has been made once; before it all entries that its pass needs have been made, and the
      entry of a member before the one in its group; a finished pass has all its entries. */
  lemma OnceAndInOrder(sys: System, s: State)
    requires WellFormed(sys) && Reachable(sys, s)
    ensures Inv(sys, s)
    ensures forall i, j :: 0 <= i < j < |s.started| ==> s.started[i] != s.started[j]
    ensures forall i, j :: 0 <= i < j < |s.registry| ==> s.registry[i] != s.registry[j]
    ensures forall i {:trigger s.registry[i]} :: 0 <= i < |s.registry| ==>
              var p, k := s.registry[i].pass, s.registry[i].k;
              && NeedsMade(sys, s.registry[..i], p)
              && (k == 0 || (k == 1 && sys[p].InitializeAgPass? && Entry(p, 0) in s.registry[..i]))
    ensures forall p {:trigger Flag(s, p)} :: Flag(s, p) == 2 ==>
              AllMade(sys, s.registry, p) && NeedsMade(sys, s.registry, p)
  {
    hide CallsOk, DependsOn, FlagsOk;
    var run :| IsRun(sys, run) && s in run;
    var n :| 0 <= n < |run| && run[n] == s;
    RunKeeps(sys, run, n);
    forall i {:trigger s.registry[i]} | 0 <= i < |s.registry|
      ensures NeedsMade(sys, s.registry[..i], s.registry[i].pass)
    {
      assert EntryOk(sys, s.registry[..i], s.registry[i]);
      NeedsAreMade(sys, s.registry[..i], s.registry[i].pass);
    }
    forall p | Flag(s, p) == 2
      ensures AllMade(sys, s.registry, p) && NeedsMade(sys, s.registry, p)
    {
      InvParts(sys, s, p);
      RegisteredIsMade(sys, s, p);
    }
  }

  lemma InvParts(sys: System, s: State, p: Pass)
    requires Inv(sys, s)
    ensures RegistryOk(sys, s) && FlagOk(sys, s, p)
  {
  }

  lemma RegisteredIsMade(sys: System, s: State, p: Pass)
    requires WellFormed(sys) && RegistryOk(sys, s) && Registered(sys, s, p)
    ensures AllMade(sys, s.registry, p) && NeedsMade(sys, s.registry, p)
  {
    hide DependsOn, WellFormed;
    assert MakesEntry(sys, p, 0) && Entry(p, 0) in s.registry;
    var i :| 0 <= i < |s.registry| && s.registry[i] == Entry(p, 0);
    assert EntryOk(sys, s.registry[..i], s.registry[i]);
    assert forall x :: x in s.registry[..i] ==> x in s.registry;
    NeedsAreMade(sys, s.registry, p);
  }

  /** No call returns before its pass and all that it needs are completely registered. */
  lemma ReturnsRegistered(sys: System, s: State, t: Thread)
    requires WellFormed(sys) && Reachable(sys, s) && Busy(s, t) && Top(s.threads[t]).pass in sys
    requires Returns(sys, s, t)
    ensures var p, s' := Top(s.threads[t]).pass, Fire(sys, s, t);
            Flag(s', p) == 2 && AllMade(sys, s'.registry, p) && NeedsMade(sys, s'.registry, p)
  {
    hide CallsOk, RegistryOk, AllMade, NeedsMade;
    OnceAndInOrder(sys, s);
    FireKeeps(sys, s, t);
    var p := Top(s.threads[t]).pass;
    var s' := Fire(sys, s, t);
    assert FlagOk(sys, s, p);
    if Top(s.threads[t]).pc.Running? {
      FinishKeeps(sys, s, t);
    }
    RegisteredIsMade(sys, s', p);
  }

  /** A call made by an initialiser is for its group or its default pass, or for a dependency, after the
      group and all dependencies that are listed before it are finished. */
  lemma AsksInOrder(sys: System, s: State, t: Thread, i: nat)
    requires WellFormed(sys) && Reachable(sys, s) && t in s.threads && i < |s.threads[t]| - 1
    ensures var p, next := s.threads[t][i].pass, s.threads[t][i + 1].pass;
            && p in sys
            && match sys[p]
               case InitializePass(deps) => NextOf(s, deps, next)
               case InitializeAnalysisGroup(default) => next == default
               case InitializeAgPass(group, isDefault, deps) =>
                 || (!isDefault && next == group)
                 || ((isDefault || Flag(s, group) == 2) && NextOf(s, deps, next))
  {
    hide CallsOk, FlagsOk, RegistryOk;
    OnceAndInOrder(sys, s);
    CallAt(sys, s, t, i);
    var c := s.threads[t][i];
    var init := sys[c.pass];
    var n := c.pc.n - 1;
    assert forall k :: 0 <= k < n ==> Flag(s, init.Deps()[k]) == 2;
    if init.InitializeAgPass? && !init.isDefault && n > 0 {
      assert init.Deps()[0] == init.group;
      forall k | 0 <= k < n - 1
        ensures Flag(s, init.deps[k]) == 2
      {
        assert init.Deps()[k + 1] == init.deps[k];
      }
      IsNext(s, init.deps, n - 1);
    } else if !init.InitializeAnalysisGroup? && !(init.InitializeAgPass? && !init.isDefault) {
      assert init.Deps() == init.deps;
      IsNext(s, init.deps, n);
    }
  }

  lemma CallAt(sys: System, s: State, t: Thread, i: int)
    requires Inv(sys, s) && t in s.threads && 0 <= i < |s.threads[t]|
    ensures CallOk(sys, s, t, i)
  {
  }

  /** One of the passes, and all before it are finished. */
  ghost predicate NextOf(s: State, deps: seq<Pass>, next: Pass) {
    exists j :: IsNextAt(s, deps, next, j)
  }

  predicate IsNextAt(s: State, deps: seq<Pass>, next: Pass, j: int) {
    0 <= j < |deps| && deps[j] == next && forall k :: 0 <= k < j ==> Flag(s, deps[k]) == 2
  }

  lemma IsNext(s: State, deps: seq<Pass>, j: nat)
    requires j < |deps| && forall k :: 0 <= k < j ==> Flag(s, deps[k]) == 2
    ensures NextOf(s, deps, deps[j])
  {
    assert IsNextAt(s, deps, deps[j], j);
  }

  // ---------------------------------------------------------------- no deadlock

  ghost predicate IsChain(sys: System, path: seq<Pass>) {
    |path| > 1 && (forall i :: 0 <= i < |path| ==> path[i] in sys)
    && forall i {:trigger path[i]} :: 0 <= i < |path| - 1 ==> DependsOn(sys, path[i], path[i + 1])
  }

  /** No pass depends on itself, directly or through others. */
  ghost predicate Acyclic(sys: System) {
    forall path {:trigger IsChain(sys, path)} :: IsChain(sys, path) ==> path[0] != path[|path| - 1]
  }

  /** q is a dependency of p, or of one of its dependencies. */
  ghost predicate Leads(sys: System, p: Pass, q: Pass) {
    exists path :: IsChain(sys, path) && path[0] == p && path[|path| - 1] == q
  }

  ghost function Below(sys: System, p: Pass): set<Pass> {
    set q | q in sys.Keys && Leads(sys, p, q)
  }

  lemma LeadsLonger(sys: System, p: Pass, d: Pass, q: Pass)
    requires p in sys && d in sys && DependsOn(sys, p, d) && (q == d || Leads(sys, d, q))
    ensures Leads(sys, p, q)
  {
    hide DependsOn;
    var tail := [d];
    if q != d {
      tail :| IsChain(sys, tail) && tail[0] == d && tail[|tail| - 1] == q;
    }
    var path := [p] + tail;
    forall i | 0 <= i < |path| - 1
      ensures DependsOn(sys, path[i], path[i + 1])
    {
      if i > 0 {
        assert DependsOn(sys, tail[i - 1], tail[i - 1 + 1]);
      }
    }
    assert IsChain(sys, path);
  }

  /** Dependencies go down in rank. */
  ghost predicate Ranked(sys: System, rank: map<Pass, nat>) {
    && (forall p :: p in sys ==> p in rank)
    && forall p, d {:trigger DependsOn(sys, p, d)} :: DependsOn(sys, p, d) && d in sys ==> rank[d] < rank[p]
  }

  /** Without a cycle there are ranks: the number of passes that come below. */
  lemma AcyclicRanked(sys: System) returns (rank: map<Pass, nat>)
    requires Acyclic(sys)
    ensures Ranked(sys, rank)
  {
    hide IsChain, DependsOn;
    rank := Tabulate(sys.Keys, p => |Below(sys, p)|);
    forall p, d | DependsOn(sys, p, d) && d in sys
      ensures p in sys && rank[d] < rank[p]
    {
      DependerIn(sys, p, d);
      forall q | q in Below(sys, d)
        ensures q in Below(sys, p)
      {
        LeadsLonger(sys, p, d, q);
      }
      LeadsLonger(sys, p, d, d);
      assert d in Below(sys, p) && d !in Below(sys, d);
      SubsetSize(Below(sys, d), Below(sys, p));
    }
  }

  lemma DependerIn(sys: System, p: Pass, d: Pass)
    requires DependsOn(sys, p, d)
    ensures p in sys
  {
  }

  lemma {:induction false} StackGoesDown(sys: System, rank: map<Pass, nat>, s: State, t: Thread, i: nat, j: nat)
    requires WellFormed(sys) && Ranked(sys, rank) && CallsOk(sys, s) && t in s.threads && i < j < |s.threads[t]|
    ensures s.threads[t][i].pass in sys && s.threads[t][j].pass in sys
            && rank[s.threads[t][j].pass] < rank[s.threads[t][i].pass]
    decreases j
  {
    assert CallOk(sys, s, t, j - 1) && CallOk(sys, s, t, j);
    BodyIs(sys, s.threads[t][j - 1].pass);
    assert DependsOn(sys, s.threads[t][j - 1].pass, s.threads[t][j].pass);
    if i < j - 1 {
      StackGoesDown(sys, rank, s, t, i, j - 1);
    }
  }

  /** If some thread is in a call, some thread can make progress. */
  lemma {:induction false} SomeoneMoves(sys: System, rank: map<Pass, nat>, s: State, t: Thread) returns (u: Thread)
    requires WellFormed(sys) && Ranked(sys, rank) && Inv(sys, s) && Busy(s, t) && Top(s.threads[t]).pass in sys
    ensures Busy(s, u) && Top(s.threads[u]).pass in sys && Fire(sys, s, u) != s
    decreases rank[Top(s.threads[t]).pass]
  {
    hide Fire, RegistryOk, StartedOnce;
    Blocked(sys, s, t);
    var c := Top(s.threads[t]);
    if !(c.pc.Spinning? && Flag(s, c.pass) != 2) {
      u := t;
    } else {
      assert CallOk(sys, s, t, |s.threads[t]| - 1);
      assert FlagOk(sys, s, c.pass);
      var v, i := s.owner[c.pass].0, s.owner[c.pass].1;
      var n :| IsCall(s, v, i, Call(c.pass, Running(n)));
      var m := |s.threads[v]| - 1;
      assert CallOk(sys, s, v, m);
      if i == m {
        Blocked(sys, s, v);
        u := v;
      } else {
        StackGoesDown(sys, rank, s, v, i, m);
        u := SomeoneMoves(sys, rank, s, v);
      }
    }
  }

  /** Some thread is in a call, and no step of any thread changes anything. */
  ghost predicate Stuck(sys: System, s: State) {
    (exists t :: Busy(s, t))
      && forall u {:trigger Busy(s, u)} :: Busy(s, u) && Top(s.threads[u]).pass in sys ==> Fire(sys, s, u) == s
  }

  lemma NoDeadlock(sys: System, s: State)
    requires WellFormed(sys) && Acyclic(sys) && Reachable(sys, s)
    ensures !Stuck(sys, s)
  {
    hide Fire, RegistryOk, StartedOnce, FlagsOk, Acyclic, Ranked;
    OnceAndInOrder(sys, s);
    var rank := AcyclicRanked(sys);
    if t :| Busy(s, t) {
      assert CallOk(sys, s, t, |s.threads[t]| - 1);
      var u := SomeoneMoves(sys, rank, s, t);
    }
  }

  // ---------------------------------------------------------------- with a cycle

  lemma {:induction false} ChainEarlier(sys: System, s: State, path: seq<Pass>, i: nat)
    requires RegistryOk(sys, s) && IsChain(sys, path) && i < |s.registry| && s.registry[i].pass == path[0]
    ensures Entry(path[|path| - 1], 0) in s.registry[..i]
    decreases |path|
  {
    hide IsChain, RegistryOk;
    ChainStep(sys, s, path, i);
    if |path| > 2 {
      var j :| 0 <= j < i && s.registry[j] == Entry(path[1], 0);
      ChainEarlier(sys, s, path[1..], j);
      assert s.registry[..j] <= s.registry[..i];
    }
  }

  lemma ChainStep(sys: System, s: State, path: seq<Pass>, i: nat)
    requires RegistryOk(sys, s) && IsChain(sys, path) && i < |s.registry| && s.registry[i].pass == path[0]
    ensures |path| >= 2 && Entry(path[1], 0) in s.registry[..i] && (|path| > 2 ==> IsChain(sys, path[1..]))
  {
    hide DependsOn;
    assert DependsOn(sys, path[0], path[0 + 1]) && MakesEntry(sys, path[1], 0);
    assert EntryOk(sys, s.registry[..i], s.registry[i]);
    var rest := path[1..];
    assert forall k {:trigger rest[k]} ::
        0 <= k < |rest| - 1 ==> rest[k] == path[k + 1] && rest[k + 1] == path[k + 1 + 1];
  }

  lemma CycleNotRegistered(sys: System, s: State, path: seq<Pass>)
    requires RegistryOk(sys, s) && IsChain(sys, path) && path[0] == path[|path| - 1]
    ensures !Registered(sys, s, path[0])
  {
    if Registered(sys, s, path[0]) {
      assert Entry(path[0], 0) in s.registry;
      var i :| 0 <= i < |s.registry| && s.registry[i] == Entry(path[0], 0);
      ChainEarlier(sys, s, path, i);
    }
  }

  /** A pass that depends on itself, directly or not, is never finished, so no call for it ever returns. */
  lemma CycleNeverFinishes(sys: System, s: State, path: seq<Pass>)
    requires WellFormed(sys) && Reachable(sys, s) && IsChain(sys, path) && path[0] == path[|path| - 1]
    ensures Flag(s, path[0]) != 2 && !Registered(sys, s, path[0])
    ensures forall t :: Busy(s, t) && Top(s.threads[t]).pass == path[0] ==> path[0] in sys && !Returns(sys, s, t)
  {
    hide Inv, RegistryOk, Fire, Reachable, WellFormed, Registered, Returns;
    OnceAndInOrder(sys, s);
    InvParts(sys, s, path[0]);
    CycleNotRegistered(sys, s, path);
    forall t | Busy(s, t) && Top(s.threads[t]).pass == path[0]
      ensures path[0] in sys && !Returns(sys, s, t)
    {
      if Returns(sys, s, t) {
        ReturnsRegistered(sys, s, t);
        FireKeeps(sys, s, t);
        InvParts(sys, Fire(sys, s, t), path[0]);
        CycleNotRegistered(sys, Fire(sys, s, t), path);
      }
    }
  }

  // ---------------------------------------------------------------- every call ends

  /** Steps that the body of an initialiser and the calls it makes itself may take. */
  function BodyCost(sys: System, p: Pass, n: nat): nat {
    if p !in sys then 0
    else if n <= |sys[p].Deps()| then 3 * (|sys[p].Deps()| - n) + sys[p].Regs() + 1
    else if n <= sys[p].Length() then sys[p].Length() - n + 1
    else 1
  }

  function CallCost(sys: System, c: Call): nat {
    match c.pc
    case Entering => 2
    case Spinning => 1
    case Running(n) => BodyCost(sys, c.pass, n)
  }

  function StackCost(sys: System, stack: seq<Call>): nat {
    if stack == [] then 0 else StackCost(sys, stack[..|stack| - 1]) + CallCost(sys, Top(stack))
  }

  ghost function Ahead(sys: System, s: State): Pass -> nat {
    p => if Flag(s, p) == 0 then BodyCost(sys, p, 0) else 0
  }

  ghost function Calls(sys: System, s: State): Thread -> nat {
    t => if t in s.threads then StackCost(sys, s.threads[t]) else 0
  }

  /** A bound on the steps that are left if nobody asks for another pass. */
  ghost function Work(sys: System, s: State): nat {
    Total(sys.Keys, Ahead(sys, s)) + Total(s.threads.Keys, Calls(sys, s))
  }

  lemma StackCostTop(sys: System, stack: seq<Call>, c: Call)
    ensures StackCost(sys, stack + [c]) == StackCost(sys, stack) + CallCost(sys, c)
  {
    assert (stack + [c])[..|stack|] == stack;
  }

  /** A step changes the stack of its own thread and the flag of its own pass only. */
  lemma FireLocal(sys: System, s: State, t: Thread)
    requires Busy(s, t) && Top(s.threads[t]).pass in sys
    ensures var s' := Fire(sys, s, t);
            && s'.threads.Keys == s.threads.Keys
               && (forall u :: u in s.threads && u != t ==> s'.threads[u] == s.threads[u])
            && forall x :: x != Top(s.threads[t]).pass ==> Flag(s', x) == Flag(s, x)
  {
  }

  lemma FlagAfter(sys: System, s: State, t: Thread)
    requires Busy(s, t) && Top(s.threads[t]).pass in sys
    requires Top(s.threads[t]).pc.Running? ==> Flag(s, Top(s.threads[t]).pass) == 1
    ensures var c := Top(s.threads[t]);
            Ahead(sys, Fire(sys, s, t))(c.pass) == Ahead(sys, s)(c.pass) - if c.pc.Entering?
              && Flag(s, c.pass) == 0 then BodyCost(sys, c.pass, 0) else 0
  {
    hide BodyCost;
  }

  /** Every step that changes anything uses up work. */
  lemma FireWorks(sys: System, s: State, t: Thread)
    requires Busy(s, t) && Top(s.threads[t]).pass in sys && Fire(sys, s, t) != s
    requires Top(s.threads[t]).pc.Running? ==> Flag(s, Top(s.threads[t]).pass) == 1
    ensures Work(sys, Fire(sys, s, t)) < Work(sys, s)
  {
    hide Fire, StackCost, BodyCost, Flag;
    var s', p := Fire(sys, s, t), Top(s.threads[t]).pass;
    FireLocal(sys, s, t);
    FlagAfter(sys, s, t);
    TotalChanges(s.threads.Keys, Calls(sys, s), Calls(sys, s'), t);
    TotalChanges(sys.Keys, Ahead(sys, s), Ahead(sys, s'), p);
    StackAfter(sys, s, t);
  }

  lemma StackAfter(sys: System, s: State, t: Thread)
    requires Busy(s, t) && Top(s.threads[t]).pass in sys && Fire(sys, s, t) != s
    ensures var stack := s.threads[t];
            var c := Top(stack);
            StackCost(sys, Fire(sys, s, t).threads[t])
            < StackCost(sys, stack) + (if c.pc.Entering? && Flag(s, c.pass) == 0 then BodyCost(sys, c.pass, 0) else 0)
  {
    var stack := s.threads[t];
    var below, c := stack[..|stack| - 1], Top(stack);
    Blocked(sys, s, t);
    assert stack == below + [c];
    StackCostTop(sys, below, c);
    var stack' := Fire(sys, s, t).threads[t];
    match c.pc
    case Entering =>
      var pc := if Flag(s, c.pass) == 0 then Running(0) else Spinning;
      assert stack' == below + [c.(pc := pc)];
      StackCostTop(sys, below, c.(pc := pc));
    case Spinning =>
      assert stack' == below;
    case Running(n) =>
      var next := c.(pc := Running(n + 1));
      StackCostTop(sys, below, next);
      if n < |sys[c.pass].Deps()| {
        var d := Call(sys[c.pass].Deps()[n], Entering);
        assert stack' == below + [next] + [d];
        StackCostTop(sys, below + [next], d);
      } else if n < sys[c.pass].Length() {
        assert stack' == below + [next];
      } else {
        assert stack' == below;
      }
  }

  /** From here to there by steps. */
  ghost predicate IsPath(sys: System, run: seq<State>, s: State, s': State) {
    && run != [] && run[0] == s && run[|run| - 1] == s'
    && forall i {:trigger run[i]} :: 0 <= i < |run| - 1 ==> Next(sys, run[i], run[i + 1])
  }

  /** Without a cycle, if nobody asks for more, the threads can go on from every reachable state until all
      calls have returned; each of the steps uses up work, so there is no other way to end. */
  lemma {:induction false} AllCallsReturn(sys: System, s: State) returns (run: seq<State>)
    requires WellFormed(sys) && Acyclic(sys) && Inv(sys, s)
    ensures run != [] && IsPath(sys, run, s, run[|run| - 1]) && Inv(sys, run[|run| - 1]) && Idle(run[|run| - 1])
    ensures forall i {:trigger run[i]} :: 0 <= i < |run| - 1 ==> Work(sys, run[i + 1]) < Work(sys, run[i])
    decreases Work(sys, s)
  {
    hide Inv, Fire, Work, Next, Acyclic, Ranked;
    if exists t :: Busy(s, t) {
      var t :| Busy(s, t);
      TopIn(sys, s, t);
      var rank := AcyclicRanked(sys);
      var u := SomeoneMoves(sys, rank, s, t);
      TopIn(sys, s, u);
      FireWorks(sys, s, u);
      FireKeeps(sys, s, u);
      FireIsNext(sys, s, u);
      var rest := AllCallsReturn(sys, Fire(sys, s, u));
      run := [s] + rest;
      assert forall i {:trigger run[i]} :: 0 < i < |run| ==> run[i] == rest[i - 1];
    } else {
      run := [s];
    }
  }

  lemma TopIn(sys: System, s: State, t: Thread)
    requires Inv(sys, s) && Busy(s, t)
    ensures Top(s.threads[t]).pass in sys && (Top(s.threads[t]).pc.Running? ==> Flag(s, Top(s.threads[t]).pass) == 1)
  {
    assert CallOk(sys, s, t, |s.threads[t]| - 1);
  }

  lemma FireIsNext(sys: System, s: State, t: Thread)
    requires Busy(s, t) && Top(s.threads[t]).pass in sys
    ensures Next(sys, s, Fire(sys, s, t))
  {
  }

  // ---------------------------------------------------------------- exactly when calls can return

  lemma ReachableNext(sys: System, s: State, s': State)
    requires Reachable(sys, s) && Next(sys, s, s')
    ensures Reachable(sys, s')
  {
    hide Next;
    var run :| IsRun(sys, run) && s in run;
    var n :| 0 <= n < |run| && run[n] == s;
    var longer := run[..n + 1] + [s'];
    forall i | 0 <= i < |longer| - 1
      ensures Next(sys, longer[i], longer[i + 1])
    {
      if i < n {
        assert Next(sys, run[i], run[i + 1]);
      }
    }
    assert IsRun(sys, longer) && longer[n + 1] == s';
  }

  /** The first call of t is for p. */
  predicate Asked(s: State, t: Thread, p: Pass) {
    Busy(s, t) && s.threads[t][0].pass == p
  }

  /** The first call of a thread does not return if its pass is on a cycle. */
  lemma CycleStays(sys: System, path: seq<Pass>, s: State, s': State, t: Thread)
    requires WellFormed(sys) && Reachable(sys, s) && IsChain(sys, path) && path[0] == path[|path| - 1]
    requires Asked(s, t, path[0]) && Next(sys, s, s')
    ensures Asked(s', t, path[0]) && Reachable(sys, s')
  {
    hide Reachable, WellFormed, IsChain, Fire;
    ReachableNext(sys, s, s');
    CycleNeverFinishes(sys, s, path);
    if u :| Busy(s, u) && Top(s.threads[u]).pass in sys && s' == Fire(sys, s, u) {
      FireLocal(sys, s, u);
      FireBelow(sys, s, u);
    }
  }

  /** A step changes its own stack at the top only. */
  lemma FireBelow(sys: System, s: State, t: Thread)
    requires Busy(s, t) && Top(s.threads[t]).pass in sys
    ensures var stack, stack' := s.threads[t], Fire(sys, s, t).threads[t];
            && |stack'| >= |stack| - 1 && (forall i :: 0 <= i < |stack| - 1 ==> stack'[i] == stack[i])
            && (|stack'| >= |stack| ==> stack'[|stack| - 1].pass == Top(stack).pass)
  {
  }

  lemma {:induction false} CycleStaysOnPath(sys: System, path: seq<Pass>, run: seq<State>, n: nat, t: Thread)
    requires WellFormed(sys) && IsChain(sys, path) && path[0] == path[|path| - 1]
    requires n < |run| && Reachable(sys, run[0]) && Asked(run[0], t, path[0])
    requires forall i {:trigger run[i]} :: 0 <= i < |run| - 1 ==> Next(sys, run[i], run[i + 1])
    ensures Asked(run[n], t, path[0]) && Reachable(sys, run[n])
    decreases n
  {
    hide Reachable, WellFormed, IsChain, Next, Asked;
    if n > 0 {
      CycleStaysOnPath(sys, path, run, n - 1, t);
      assert Next(sys, run[n - 1], run[n - 1 + 1]);
      CycleStays(sys, path, run[n - 1], run[n], t);
    }
  }

  /** Once a pass on a cycle has been asked for, the threads can always end up waiting for each other. */
  lemma {:induction false} CycleGetsStuck(sys: System, path: seq<Pass>, s: State, t: Thread) returns (s': State)
    requires WellFormed(sys) && Reachable(sys, s) && IsChain(sys, path) && path[0] == path[|path| - 1]
             && Asked(s, t, path[0])
    ensures Reachable(sys, s') && Stuck(sys, s')
    decreases Work(sys, s)
  {
    hide Reachable, WellFormed, IsChain, Fire, Inv, Next, Work;
    if u :| Busy(s, u) && Top(s.threads[u]).pass in sys && Fire(sys, s, u) != s {
      OnceAndInOrder(sys, s);
      TopIn(sys, s, u);
      FireWorks(sys, s, u);
      FireIsNext(sys, s, u);
      CycleStays(sys, path, s, Fire(sys, s, u), t);
      s' := CycleGetsStuck(sys, path, Fire(sys, s, u), t);
    } else {
      s' := s;
    }
  }

  lemma AskFirst(sys: System, t: Thread, p: Pass)
    requires p in sys
    ensures Reachable(sys, Ask(Initial(), t, p)) && Asked(Ask(Initial(), t, p), t, p)
  {
    var run := [Initial()];
    assert IsRun(sys, run) && Initial() in run;
    ReachableNext(sys, Initial(), Ask(Initial(), t, p));
  }

  ghost predicate CanFinish(sys: System, s: State) {
    exists run, s' :: IsPath(sys, run, s, s') && Idle(s')
  }

  /** Cyclic dependencies are exactly what keeps calls from returning: threads can get stuck if and only
      if some pass depends on itself, and so can reachable states from which the calls cannot all return. */
  lemma AcyclicIff(sys: System)
    requires WellFormed(sys)
    ensures Acyclic(sys) <==> forall s :: Reachable(sys, s) ==> !Stuck(sys, s)
    ensures Acyclic(sys) <==> forall s :: Reachable(sys, s) ==> CanFinish(sys, s)
  {
    hide Reachable, WellFormed, IsChain, Inv, Stuck, IsPath;
    if Acyclic(sys) {
      forall s | Reachable(sys, s)
        ensures !Stuck(sys, s) && CanFinish(sys, s)
      {
        NoDeadlock(sys, s);
        OnceAndInOrder(sys, s);
        var run := AllCallsReturn(sys, s);
      }
    } else {
      var path := SomeCycle(sys);
      var t: Thread := *;
      AskFirst(sys, t, path[0]);
      var s := Ask(Initial(), t, path[0]);
      var s' := CycleGetsStuck(sys, path, s, t);
      CycleCannotFinish(sys, path, s, t);
    }
  }

  lemma SomeCycle(sys: System) returns (path: seq<Pass>)
    requires !Acyclic(sys)
    ensures IsChain(sys, path) && path[0] in sys && path[0] == path[|path| - 1]
  {
    path :| IsChain(sys, path) && path[0] == path[|path| - 1];
  }

  lemma CycleCannotFinish(sys: System, path: seq<Pass>, s: State, t: Thread)
    requires WellFormed(sys) && Reachable(sys, s) && IsChain(sys, path) && path[0] == path[|path| - 1]
             && Asked(s, t, path[0])
    ensures !CanFinish(sys, s)
  {
    hide Reachable, WellFormed, IsChain, Next;
    if run, s' :| IsPath(sys, run, s, s') && Idle(s') {
      CycleStaysOnPath(sys, path, run, |run| - 1, t);
      assert false;
    }
  }
}
