// LazyValueInfoCache: values are solved on demand with an explicit stack; what has been found is cached.
module LazyValueInfo {
  import opened LatticeValues
  import opened Options
  import opened LazyValueProgram
  import opened LazyValueSolve
  import opened Sets

  ghost predicate InProgram(p: Program, k: Pair) {
    k.block in p.blocks && Within(p, k.value)
  }

  /** All pairs that can ever be cached. */
  ghost function Pairs(p: Program): (s: set<Pair>)
    ensures forall k :: k in s <==> k.block in p.blocks && k.value.Variable? && k.value.v in p.vars
  {
    set b, v | b in p.blocks && v in p.vars :: Pair(b, Variable(v))
  }

  ghost predicate IsDefined(cache: Cache, k: Pair) {
    k in cache && !cache[k].Undefined?
  }

  /** The pairs that are still without a value. */
  ghost function Unsolved(p: Program, cache: Cache): set<Pair> {
    set k | k in Pairs(p) && !IsDefined(cache, k)
  }

  lemma FewerUnsolved(p: Program, cache: Cache, cache': Cache)
    requires forall k :: IsDefined(cache, k) ==> IsDefined(cache', k)
    ensures |Unsolved(p, cache')| <= |Unsolved(p, cache)|
    ensures forall k :: k in Pairs(p) && !IsDefined(cache, k) && IsDefined(cache', k) ==>
              |Unsolved(p, cache')| < |Unsolved(p, cache)|
  {
    var a, b := Unsolved(p, cache'), Unsolved(p, cache);
    assert a <= b;
    SubsetSize(a, b);
    forall k | k in Pairs(p) && !IsDefined(cache, k) && IsDefined(cache', k)
      ensures |a| < |b|
    {
      assert a <= b - {k};
      SubsetSize(a, b - {k});
    }
  }

  /** Everything an answer waits for is a pair of the program that has no entry. */
  ghost predicate Waiting(p: Program, cache: Cache, first: seq<Pair>) {
    forall k :: k in first ==> InProgram(p, k) && k.value.Variable? && k !in cache
  }

  /** The values and blocks of the edges are of the program. */
  ghost predicate EdgesWithin(p: Program, es: seq<(Value, Block)>) {
    forall e :: e in es ==> e.1 in p.blocks && Within(p, e.0)
  }

  lemma EdgesWithinRest(p: Program, es: seq<(Value, Block)>)
    requires EdgesWithin(p, es) && es != []
    ensures es[0].1 in p.blocks && Within(p, es[0].0) && EdgesWithin(p, es[1..])
  {
    hide Within;
    assert es[0] in es;
  }

  /** An edge asks for the value at the end of its own block only. */
  lemma EdgeAsks(p: Program, cache: Cache, v: Value, f: Block, t: Block)
    requires f in p.term
    ensures var a := EdgeValue(p, cache, v, f, t); a.Wait? ==>
              a.first == [Pair(f, v)] && v.Variable? && Pair(f, v) !in cache
  {
    hide EdgeLocal;
  }

  lemma EdgeWaits(p: Program, cache: Cache, v: Value, f: Block, t: Block)
    requires f in p.term && f in p.blocks && Within(p, v)
    ensures var a := EdgeValue(p, cache, v, f, t); a.Wait? ==> a.first != [] && Waiting(p, cache, a.first)
  {
    EdgeAsks(p, cache, v, f, t);
  }

  lemma WaitingBoth(p: Program, cache: Cache, a: seq<Pair>, b: seq<Pair>)
    requires Waiting(p, cache, a) && Waiting(p, cache, b)
    ensures Waiting(p, cache, a + b)
  {
    hide InProgram;
  }

  lemma {:induction false} MissingWaits(p: Program, cache: Cache, es: seq<(Value, Block)>, t: Block)
    requires EdgesOk(p, es) && EdgesWithin(p, es)
    ensures Waiting(p, cache, Missing(p, cache, es, t))
    decreases |es|
  {
    hide EdgeValue, EdgesWithin, Waiting;
    if es != [] {
      EdgesWithinRest(p, es);
      assert es[0] in es;
      EdgeWaits(p, cache, es[0].0, es[0].1, t);
      MissingWaits(p, cache, es[1..], t);
      var a := EdgeValue(p, cache, es[0].0, es[0].1, t);
      if a.Wait? {
        WaitingBoth(p, cache, a.first, Missing(p, cache, es[1..], t));
      } else {
        assert Missing(p, cache, es, t) == Missing(p, cache, es[1..], t);
      }
    } else {
      NothingWaits(p, cache);
    }
  }

  lemma NothingWaits(p: Program, cache: Cache)
    ensures Waiting(p, cache, [])
  {
  }

  lemma {:induction false} MergeWaits(p: Program, cache: Cache, es: seq<(Value, Block)>, t: Block, acc: Lattice)
    requires EdgesOk(p, es) && EdgesWithin(p, es)
    ensures var a := MergeEdges(p, cache, es, t, acc); a.Wait? ==> a.first != [] && Waiting(p, cache, a.first)
    decreases |es|
  {
    hide EdgeValue, EdgesWithin, Waiting, Missing, Rules.Merge;
    if es != [] {
      EdgesWithinRest(p, es);
      assert es[0] in es;
      EdgeWaits(p, cache, es[0].0, es[0].1, t);
      var a := EdgeValue(p, cache, es[0].0, es[0].1, t);
      if a.Wait? {
        MissingWaits(p, cache, es[1..], t);
        WaitingBoth(p, cache, a.first, Missing(p, cache, es[1..], t));
      } else {
        MergeWaits(p, cache, es[1..], t, p.rules.Merge(acc, a.value));
      }
    }
  }

  lemma PredsWithin(p: Program, v: Var, b: Block)
    requires WellFormed(p) && v in p.vars && b in p.blocks
    ensures EdgesWithin(p, PredEdges(Variable(v), p.preds[b]))
  {
  }

  lemma PhiWithin(p: Program, v: Var)
    requires WellFormed(p) && v in p.vars && p.def[v].Phi?
    ensures EdgesWithin(p, p.def[v].incoming)
  {
    hide Within;
    forall e | e in p.def[v].incoming
      ensures e.1 in p.blocks && Within(p, e.0)
    {
      var i :| 0 <= i < |p.def[v].incoming| && p.def[v].incoming[i] == e;
    }
  }

  /** A step that cannot finish waits for at least one pair, each without an entry. */
  lemma TransferWaits(p: Program, cache: Cache, v: Var, b: Block)
    requires WellFormed(p) && v in p.vars && b in p.blocks
    requires EdgesOk(p, PredEdges(Variable(v), p.preds[b])) && (p.def[v].Phi? ==> EdgesOk(p, p.def[v].incoming))
    ensures var a := Transfer(p, cache, v, b); a.Wait? ==> a.first != [] && Waiting(p, cache, a.first)
  {
    hide EdgesWithin, MergeEdges, EdgesOk, Waiting;
    PredsWithin(p, v, b);
    MergeWaits(p, cache, PredEdges(Variable(v), p.preds[b]), b, Undefined);
    if p.def[v].Phi? {
      PhiWithin(p, v);
      MergeWaits(p, cache, p.def[v].incoming, b, Undefined);
    } else if p.def[v].Arith? && DefinedIn(p, v, b) {
      ArithWaits(p, cache, v, b);
    }
  }

  lemma ArithWaits(p: Program, cache: Cache, v: Var, b: Block)
    requires WellFormed(p) && v in p.vars && b in p.blocks && p.def[v].Arith? && DefinedIn(p, v, b)
    ensures var a := ArithValue(p, cache, p.def[v]); a.Wait? ==> a.first != [] && Waiting(p, cache, a.first)
  {
  }

  /** One step for a variable. */
  ghost function Step(p: Program, cache: Cache, k: Pair): Answer
    requires WellFormed(p) && k in Pairs(p)
  {
    EdgesAreOk(p, k.value.v, k.block);
    Transfer(p, cache[k := Overdefined], k.value.v, k.block)
  }

  /** What a query yields when this is cached: a constant is itself, a cached value is reused, and
      nothing is known if anything that is needed has not been cached. */
  ghost function Queried(p: Program, cache: Cache, k: Pair): Lattice
    requires WellFormed(p) && InProgram(p, k)
  {
    if k.value.Const? then OfConstant(k.value.c)
    else if IsDefined(cache, k) then cache[k]
    else if Step(p, cache, k).Wait? then Overdefined
    else Step(p, cache, k).value
  }

  /** Does a query for the pair find something missing? */
  ghost predicate HasToWait(p: Program, cache: Cache, k: Pair)
    requires WellFormed(p) && InProgram(p, k)
  {
    k.value.Variable? && !IsDefined(cache, k) && Step(p, cache, k).Wait?
  }

  lemma SoundStep(p: Program, cache: Cache, k: Pair)
    requires WellFormed(p) && p.rules.Sound() && SoundCache(p, cache) && k in Pairs(p)
    ensures SoundCache(p, cache[k := Overdefined])
    ensures Step(p, cache, k).Got? ==> SoundCache(p, cache[k := Step(p, cache, k).value])
    ensures Step(p, cache, k).Wait? ==>
              Step(p, cache, k).first != []
                && forall n :: n in Step(p, cache, k).first ==> n in Pairs(p) && n !in cache && n != k
  {
    hide Transfer, WellFormed;
    EdgesAreOk(p, k.value.v, k.block);
    var marked := cache[k := Overdefined];
    assert SoundCache(p, marked);
    TransferWaits(p, marked, k.value.v, k.block);
    if Step(p, cache, k).Got? {
      TransferBounds(p, marked, k.value.v, k.block);
    }
  }

  lemma OneEdge(p: Program, cache: Cache, es: seq<(Value, Block)>, t: Block, i: nat, acc: Lattice)
    requires EdgesOk(p, es) && i < |es|
    ensures EdgesOk(p, es[i..]) && EdgesOk(p, es[i + 1..]) && es[i].1 in p.term
    ensures var a := EdgeValue(p, cache, es[i].0, es[i].1, t);
            && Missing(p, cache, es[i..], t) == (if a.Wait? then a.first else []) + Missing(p, cache, es[i + 1..], t)
            && MergeEdges(p, cache, es[i..], t, acc)
               == match a
                  case Wait(first) => Wait(first + Missing(p, cache, es[i + 1..], t))
                  case Got(l) =>
                    var m := p.rules.Merge(acc, l);
                    if m.Overdefined? then Got(m) else MergeEdges(p, cache, es[i + 1..], t, m)
  {
    hide EdgeValue, Rules.Merge;
    assert es[i..][0] == es[i] && es[i..][1..] == es[i + 1..] && es[i] in es;
  }

  lemma NoEdge(p: Program, cache: Cache, t: Block, acc: Lattice)
    ensures MergeEdges(p, cache, [], t, acc) == Got(acc) && Missing(p, cache, [], t) == []
  {
  }

  // ---------------------------------------------------------------- states of the cache

  /** `waited` holds the pairs whose first visit could not finish. */
  datatype State = State(values: Cache, overdefined: set<Pair>, seen: set<Block>, stack: seq<Pair>, waited: set<Pair>)

  /** The index of overdefined pairs misses exactly the pairs that once had to wait. */
  ghost predicate Indexed(values: Cache, overdefined: set<Pair>, waited: set<Pair>) {
    && (forall k :: k in overdefined ==> k in values && values[k].Overdefined?)
    && (forall k :: k in waited ==> k in values && values[k].Overdefined? && k !in overdefined)
    && (forall k :: k in values && values[k].Overdefined? ==> k in overdefined || k in waited)
  }

  /** The index lists all entries that are overdefined. */
  ghost predicate IndexComplete(values: Cache, overdefined: set<Pair>) {
    forall k :: k in values && values[k].Overdefined? ==> k in overdefined
  }

  lemma CompleteIff(values: Cache, overdefined: set<Pair>, waited: set<Pair>)
    requires Indexed(values, overdefined, waited)
    ensures IndexComplete(values, overdefined) <==> waited == {}
    ensures forall k :: k in waited ==> k !in overdefined
  {
    if waited != {} {
      var k :| k in waited;
      assert k in values && values[k].Overdefined? && k !in overdefined;
    }
  }

  /** What is cached bounds the value at the end of the block in every run. */
  ghost predicate Ok(p: Program, s: State) {
    && WellFormed(p) && p.rules.Sound() && SoundCache(p, s.values) && Indexed(s.values, s.overdefined, s.waited)
    && (forall k :: k in s.values ==> k in Pairs(p) && k.block in s.seen)
    && (forall k :: k in s.stack ==> InProgram(p, k))
  }

  /** What working on a pair does. */
  ghost predicate Stepped(p: Program, k: Pair, s: State, s': State, done: bool)
    requires WellFormed(p) && InProgram(p, k)
  {
    && s.seen <= s'.seen
    && if k.value.Const? || IsDefined(s.values, k) then
         done && s'.(seen := s.seen) == s && (k.value.Variable? ==> k.block in s'.seen)
       else
         && k.block in s'.seen
         && match Step(p, s.values, k)
            case Got(l) =>
              done && s'.stack == s.stack && s'.values == s.values[k := l] && s'.waited == s.waited
              && s'.overdefined == if l.Overdefined? then s.overdefined + {k} else s.overdefined
            case Wait(first) =>
              !done && s'.stack == s.stack + first && s'.values == s.values[k := Overdefined]
              && s'.waited == s.waited + {k} && s'.overdefined == s.overdefined
  }

  lemma StepIndexed(values: Cache, overdefined: set<Pair>, waited: set<Pair>, k: Pair, l: Lattice)
    requires Indexed(values, overdefined, waited) && !IsDefined(values, k)
    ensures Indexed(values[k := l], if l.Overdefined? then overdefined + {k} else overdefined, waited)
    ensures Indexed(values[k := Overdefined], overdefined, waited + {k})
  {
  }

  lemma StackMore(p: Program, stack: seq<Pair>, first: seq<Pair>)
    requires forall k :: k in stack ==> InProgram(p, k)
    requires forall k :: k in first ==> k in Pairs(p)
    ensures forall k :: k in stack + first ==> InProgram(p, k)
  {
  }

  lemma SteppedOk(p: Program, k: Pair, s: State, s': State, done: bool)
    requires Ok(p, s) && InProgram(p, k) && Stepped(p, k, s, s', done)
    ensures Ok(p, s')
  {
    hide SoundCache, WellFormed, Step, Indexed, Rules.Sound;
    if k.value.Variable? && !IsDefined(s.values, k) {
      SoundStep(p, s.values, k);
      var a := Step(p, s.values, k);
      StepIndexed(s.values, s.overdefined, s.waited, k, if a.Got? then a.value else Undefined);
      if a.Wait? {
        StackMore(p, s.stack, a.first);
      }
    }
  }

  lemma OkParts(p: Program, s: State, k: Pair)
    requires Ok(p, s) && InProgram(p, k)
    ensures WellFormed(p) && k.block in p.blocks
            && (k.value.Variable? ==> k.value.v in p.vars && k.block in p.preds && k.value.v in p.def)
  {
    hide SoundCache, Indexed, Rules.Sound;
  }

  lemma ReusedStep(p: Program, k: Pair, s: State, s': State)
    requires WellFormed(p) && InProgram(p, k) && (k.value.Const? || IsDefined(s.values, k))
    requires s' == s.(seen := s'.seen) && s.seen <= s'.seen && (k.value.Variable? ==> k.block in s'.seen)
    ensures Stepped(p, k, s, s', true)
  {
    hide WellFormed;
  }

  lemma SolvedStep(p: Program, k: Pair, s: State, s': State, done: bool, a: Answer)
    requires WellFormed(p) && k in Pairs(p) && !IsDefined(s.values, k) && s.seen <= s'.seen && k.block in s'.seen
    requires EdgesOk(p, PredEdges(k.value, p.preds[k.block]))
             && (p.def[k.value.v].Phi? ==> EdgesOk(p, p.def[k.value.v].incoming))
    requires a == Transfer(p, s.values[k := Overdefined], k.value.v, k.block)
    requires match a
             case Got(l) =>
               done && s'.stack == s.stack && s'.values == s.values[k := l] && s'.waited == s.waited
               && s'.overdefined == if l.Overdefined? then s.overdefined + {k} else s.overdefined
             case Wait(first) =>
               !done && s'.stack == s.stack + first && s'.values == s.values[k := Overdefined]
               && s'.waited == s.waited + {k} && s'.overdefined == s.overdefined
    ensures Stepped(p, k, s, s', done)
  {
    hide WellFormed, Transfer, EdgesOk;
  }

  /** What holds while the stack is worked off. */
  ghost predicate Working(p: Program, s0: State, s: State) {
    && Ok(p, s0) && Ok(p, s)
    && (forall k :: k in s0.values ==> k in s.values)
    && (forall k :: IsDefined(s0.values, k) ==> IsDefined(s.values, k) && s.values[k] == s0.values[k])
    && (forall k :: k in s0.stack && k.value.Variable? ==> k in s.values || k in s.stack)
    && s0.waited <= s.waited && s0.overdefined <= s.overdefined
    && (|s0.stack| == 1 && s0.stack[0].value.Variable? ==> FirstQueried(p, s0, s, s0.stack[0]))
  }

  /** The only pair on the stack has not been visited yet, or has its final value. */
  ghost predicate FirstQueried(p: Program, s0: State, s: State, k: Pair)
    requires WellFormed(p) && InProgram(p, k)
  {
    || (s.stack == s0.stack && s.values == s0.values && s.waited == s0.waited)
    || (k in s.values && s.values[k] == Queried(p, s0.values, k) && (s.stack == [] || IsDefined(s.values, k))
        && (if HasToWait(p, s0.values, k) then k in s.waited else s.stack == [] && s.waited == s0.waited))
  }

  /** Below the pair that is worked on. */
  function Popped(s: State): State
    requires s.stack != []
  {
    s.(stack := s.stack[..|s.stack| - 1])
  }

  lemma InPopped(s: State, k: Pair)
    requires k in s.stack
    ensures k in Popped(s).stack || k == s.stack[|s.stack| - 1]
  {
  }

  lemma SteppedGrows(p: Program, k: Pair, s: State, s': State, done: bool)
    requires Ok(p, s) && InProgram(p, k) && Stepped(p, k, s, s', done)
    ensures (forall n :: n in s.values ==> n in s'.values) && (forall n :: n in s.stack ==> n in s'.stack)
    ensures forall n :: IsDefined(s.values, n) ==> IsDefined(s'.values, n) && s'.values[n] == s.values[n]
    ensures k.value.Variable? ==>
              k in s'.values && s'.values[k] == Queried(p, s.values, k) && (!done ==> IsDefined(s'.values, k))
    ensures s.waited <= s'.waited && s.overdefined <= s'.overdefined && (done ==> s'.stack == s.stack)
    ensures HasToWait(p, s.values, k) ==> k in s'.waited
    ensures k.value.Variable? && !HasToWait(p, s.values, k) ==> done && s'.waited == s.waited
  {
    hide SoundCache, WellFormed, Step, Indexed, Rules.Sound;
  }

  lemma WorkingStep(p: Program, s0: State, s: State, s': State, done: bool)
    requires Working(p, s0, s) && s.stack != [] && Ok(p, s) && InProgram(p, s.stack[|s.stack| - 1])
    requires Stepped(p, s.stack[|s.stack| - 1], s, s', done)
    ensures Working(p, s0, if done then Popped(s') else s')
    ensures |Unsolved(p, s'.values)| <= |Unsolved(p, s.values)|
    ensures !done ==> |Unsolved(p, s'.values)| < |Unsolved(p, s.values)|
  {
    hide Stepped, Ok, Queried, Unsolved, FirstQueried, WellFormed, InProgram, HasToWait;
    var k := s.stack[|s.stack| - 1];
    SteppedOk(p, k, s, s', done);
    SteppedGrows(p, k, s, s', done);
    var r := if done then Popped(s') else s';
    FewerUnsolved(p, s.values, s'.values);
    if done {
      PoppedOk(p, s');
    } else {
      NotDoneWasUnsolved(p, k, s, s');
    }
    forall n | n in s0.stack && n.value.Variable?
      ensures n in r.values || n in r.stack
    {
      if n in s.stack && done {
        InPopped(s', n);
      }
    }
    if |s0.stack| == 1 && s0.stack[0].value.Variable? {
      TopInProgram(p, s0);
      FirstStep(p, s0, s, s', s0.stack[0], done);
    }
  }

  lemma FirstStep(p: Program, s0: State, s: State, s': State, n: Pair, done: bool)
    requires WellFormed(p) && InProgram(p, n) && s0.stack == [n] && n.value.Variable? && FirstQueried(p, s0, s, n)
    requires s.stack != [] && Ok(p, s) && InProgram(p, s.stack[|s.stack| - 1])
             && Stepped(p, s.stack[|s.stack| - 1], s, s', done)
    ensures FirstQueried(p, s0, if done then Popped(s') else s', n)
  {
    hide Stepped, Ok, Queried, WellFormed, InProgram, HasToWait;
    SteppedGrows(p, s.stack[|s.stack| - 1], s, s', done);
  }

  lemma TopInProgram(p: Program, s: State)
    requires Ok(p, s) && s.stack != []
    ensures InProgram(p, s.stack[|s.stack| - 1]) && WellFormed(p)
  {
    hide SoundCache, WellFormed, Indexed, Rules.Sound;
    assert s.stack[|s.stack| - 1] in s.stack;
  }

  lemma PoppedOk(p: Program, s: State)
    requires Ok(p, s) && s.stack != []
    ensures Ok(p, Popped(s))
  {
    hide SoundCache, WellFormed, Indexed, Rules.Sound, InProgram;
  }

  lemma NotDoneWasUnsolved(p: Program, k: Pair, s: State, s': State)
    requires Ok(p, s) && InProgram(p, k) && Stepped(p, k, s, s', false)
    ensures k in Pairs(p) && !IsDefined(s.values, k) && IsDefined(s'.values, k)
  {
    hide SoundCache, WellFormed, Step, Indexed, Rules.Sound;
  }

  // ---------------------------------------------------------------- dropping entries

  /** Forgets pairs, in the cache, the index, and among those that waited. */
  ghost function Without(s: State, drop: set<Pair>): State {
    s.(values := s.values - drop, overdefined := s.overdefined - drop, waited := s.waited - drop)
  }

  lemma WithoutOk(p: Program, s: State, drop: set<Pair>)
    requires Ok(p, s)
    ensures Ok(p, Without(s, drop))
  {
    hide WellFormed, BoundsBlock, Rules.Sound;
  }

  /** Is one of these values overdefined in b? */
  ghost predicate Marked(over: set<Pair>, clear: set<Value>, b: Block) {
    exists v :: v in clear && Pair(b, v) in over
  }

  /** A path from `start` through blocks where one of the values is overdefined, none of them `stop`. */
  ghost predicate MarkedPath(p: Program, over: set<Pair>, clear: set<Value>, start: Block, stop: Block,
                             path: seq<Block>) {
    && path != [] && path[0] == start
    && (forall i :: 0 <= i < |path| ==> path[i] != stop && Marked(over, clear, path[i]) && path[i] in p.term)
    && (forall i {:trigger path[i]} :: 0 <= i < |path| - 1 ==> path[i + 1] in Successors(p.term[path[i]]))
  }

  /** Blocks that such a path reaches. */
  ghost predicate Affected(p: Program, over: set<Pair>, clear: set<Value>, start: Block, stop: Block, b: Block) {
    exists path :: MarkedPath(p, over, clear, start, stop, path) && path[|path| - 1] == b
  }

  lemma AffectedNext(p: Program, over: set<Pair>, clear: set<Value>, start: Block, stop: Block, a: Block, b: Block)
    requires Affected(p, over, clear, start, stop, a) && a in p.term && b in Successors(p.term[a])
    requires b != stop && Marked(over, clear, b) && b in p.term
    ensures Affected(p, over, clear, start, stop, b)
  {
    hide Marked, Successors;
    var path :| MarkedPath(p, over, clear, start, stop, path) && path[|path| - 1] == a;
    var longer := path + [b];
    assert forall i :: 0 <= i < |path| ==> longer[i] == path[i];
    assert MarkedPath(p, over, clear, start, stop, longer);
  }

  lemma AffectedStart(p: Program, over: set<Pair>, clear: set<Value>, start: Block, stop: Block)
    requires start != stop && Marked(over, clear, start) && start in p.term
    ensures Affected(p, over, clear, start, stop, start)
  {
    assert MarkedPath(p, over, clear, start, stop, [start]);
  }

  /** What is to be cleared: the values in the affected blocks. */
  ghost predicate ToClear(p: Program, over: set<Pair>, clear: set<Value>, start: Block, stop: Block, k: Pair) {
    k in over && k.value in clear && Affected(p, over, clear, start, stop, k.block)
  }

  /** A block has been done: what was overdefined there has been cleared. */
  ghost predicate Cleared(over0: set<Pair>, over: set<Pair>, clear: set<Value>, b: Block) {
    forall v :: v in clear && Pair(b, v) in over0 ==> Pair(b, v) !in over
  }

  /** Nothing more to do about b: it is on the worklist, or where clearing stops, or done. */
  ghost predicate Handled(over0: set<Pair>, over: set<Pair>, clear: set<Value>, stop: Block, work: seq<Block>,
                          b: Block) {
    b in work || b == stop || !Marked(over0, clear, b) || Cleared(over0, over, clear, b)
  }

  /** The worklist algorithm between two blocks. */
  ghost predicate Threading(p: Program, over0: set<Pair>, over: set<Pair>, clear: set<Value>, start: Block,
                            stop: Block, work: seq<Block>) {
    && over <= over0
    && (forall k :: k in over0 - over ==> ToClear(p, over0, clear, start, stop, k))
    && (forall b ::
         b in work ==>
             b in p.blocks
               && (b == start || exists a ::
                    Affected(p, over0, clear, start, stop, a) && a in p.term && b in Successors(p.term[a])))
    && (forall b ::
         (forall v :: v in clear && Pair(b, v) in over0 ==> Pair(b, v) in over) || Cleared(over0, over, clear, b))
    && Handled(over0, over, clear, stop, work, start)
    && (forall a, b {:trigger Cleared(over0, over, clear, a), b in Successors(p.term[a])} ::
          a in p.term && Marked(over0, clear, a) && Cleared(over0, over, clear, a) && b in Successors(p.term[a]) ==>
            Handled(over0, over, clear, stop, work, b))
  }

  lemma {:induction false} PathCleared(p: Program, over0: set<Pair>, over: set<Pair>, clear: set<Value>, start: Block,
                                       stop: Block,
                                       path: seq<Block>)
    requires Threading(p, over0, over, clear, start, stop, []) && MarkedPath(p, over0, clear, start, stop, path)
    ensures Cleared(over0, over, clear, path[|path| - 1])
    decreases |path|
  {
    hide Cleared, Marked, ToClear, Affected, Successors;
    if |path| > 1 {
      var init := path[..|path| - 1];
      assert forall i :: 0 <= i < |init| ==> init[i] == path[i];
      PathCleared(p, over0, over, clear, start, stop, init);
      var a, b := path[|path| - 2], path[|path| - 1];
      assert b in Successors(p.term[a]);
      assert Handled(over0, over, clear, stop, [], b);
    }
  }

  /** When the worklist is empty, exactly what is to be cleared has been cleared. */
  lemma ThreadingDone(p: Program, over0: set<Pair>, over: set<Pair>, clear: set<Value>, start: Block, stop: Block)
    requires Threading(p, over0, over, clear, start, stop, [])
    ensures forall k :: k in over0 ==> (k !in over <==> ToClear(p, over0, clear, start, stop, k))
  {
    forall k | k in over0 && ToClear(p, over0, clear, start, stop, k)
      ensures k !in over
    {
      var path :| MarkedPath(p, over0, clear, start, stop, path) && path[|path| - 1] == k.block;
      PathCleared(p, over0, over, clear, start, stop, path);
      assert Pair(k.block, k.value) == k;
    }
  }

  lemma ThreadingStarts(p: Program, over: set<Pair>, clear: set<Value>, start: Block, stop: Block)
    requires start in p.blocks
    ensures Threading(p, over, over, clear, start, stop, [start])
  {
  }

  lemma HandledFewer(over0: set<Pair>, over: set<Pair>, clear: set<Value>, stop: Block, work: seq<Block>, b: Block)
    requires work != [] && Handled(over0, over, clear, stop, work, b)
    requires work[|work| - 1] == stop || Cleared(over0, over, clear, work[|work| - 1])
    ensures Handled(over0, over, clear, stop, work[..|work| - 1], b)
  {
    hide Cleared, Marked;
  }

  /** A block where clearing stops or where there is nothing to clear. */
  lemma ThreadingSkips(p: Program, over0: set<Pair>, over: set<Pair>, clear: set<Value>, start: Block, stop: Block,
                       work: seq<Block>)
    requires Threading(p, over0, over, clear, start, stop, work) && work != []
    requires var b := work[|work| - 1]; b == stop || forall v :: v in clear ==> Pair(b, v) !in over
    ensures Threading(p, over0, over, clear, start, stop, work[..|work| - 1])
  {
    hide Marked, ToClear, Affected, Successors, Handled;
    var b, fewer := work[|work| - 1], work[..|work| - 1];
    assert b == stop || Cleared(over0, over, clear, b);
    HandledFewer(over0, over, clear, stop, work, start);
    forall a, c | a in p.term && Marked(over0, clear, a) && Cleared(over0, over, clear, a) && c in Successors(p.term[a])
      ensures Handled(over0, over, clear, stop, fewer, c)
    {
      HandledFewer(over0, over, clear, stop, work, c);
    }
    assert forall c :: c in fewer ==> c in work;
  }

  lemma HandledMore(over0: set<Pair>, over: set<Pair>, over': set<Pair>, clear: set<Value>, stop: Block,
                    work: seq<Block>, more: seq<Block>, b: Block)
    requires work != [] && Handled(over0, over, clear, stop, work, b) && over' <= over
    requires Cleared(over0, over', clear, work[|work| - 1])
    ensures Handled(over0, over', clear, stop, work[..|work| - 1] + more, b)
  {
    hide Marked;
  }

  /** Only the pairs of one block are dropped. */
  ghost predicate DropsBlock(over: set<Pair>, clear: set<Value>, b: Block, drop: set<Pair>) {
    forall k :: k in drop <==> k in over && k.block == b && k.value in clear
  }

  lemma DropExact(drop: set<Pair>, clear: set<Value>, over: set<Pair>, b: Block)
    requires drop == set v | v in clear && Pair(b, v) in over :: Pair(b, v)
    ensures DropsBlock(over, clear, b, drop)
  {
    forall k | k in over && k.block == b && k.value in clear
      ensures k in drop
    {
      assert k == Pair(b, k.value);
    }
  }

  lemma DroppedAffected(p: Program, over0: set<Pair>, clear: set<Value>, start: Block, stop: Block, b: Block)
    requires start in p.blocks && b in p.blocks && p.term.Keys == p.blocks && b != stop && Marked(over0, clear, b)
    requires b == start
             || exists a :: Affected(p, over0, clear, start, stop, a) && a in p.term && b in Successors(p.term[a])
    ensures Affected(p, over0, clear, start, stop, b)
  {
    hide Marked, Affected, Successors;
    if b == start {
      AffectedStart(p, over0, clear, start, stop);
    } else {
      var a :| Affected(p, over0, clear, start, stop, a) && a in p.term && b in Successors(p.term[a]);
      AffectedNext(p, over0, clear, start, stop, a, b);
    }
  }

  /** Whether a block is done changes for the block just cleared only. */
  lemma ClearedOthers(over0: set<Pair>, over: set<Pair>, clear: set<Value>, b: Block, drop: set<Pair>)
    requires DropsBlock(over, clear, b, drop)
    ensures Cleared(over0, over - drop, clear, b)
    ensures forall c :: c != b ==> (Cleared(over0, over - drop, clear, c) <==> Cleared(over0, over, clear, c))
    ensures forall c, v :: c != b ==> (Pair(c, v) in over - drop <==> Pair(c, v) in over)
  {
  }

  lemma ThreadingGoesOn(p: Program, over0: set<Pair>, over: set<Pair>, clear: set<Value>, start: Block, stop: Block,
                        work: seq<Block>,
                        drop: set<Pair>)
    requires Threading(p, over0, over, clear, start, stop, work) && work != [] && p.term.Keys == p.blocks
             && start in p.blocks
    requires work[|work| - 1] != stop && drop != {} && DropsBlock(over, clear, work[|work| - 1], drop)
    requires forall b :: b in p.blocks ==> forall c :: c in Successors(p.term[b]) ==> c in p.blocks
    ensures work[|work| - 1] in p.term
    ensures Threading(p, over0, over - drop, clear, start, stop,
              work[..|work| - 1] + Successors(p.term[work[|work| - 1]]))
  {
    hide Affected, Successors, Handled, Cleared, Marked;
    var b := work[|work| - 1];
    assert b in work && b in p.term;
    var next := Successors(p.term[b]);
    var over', work' := over - drop, work[..|work| - 1] + next;
    DropMarks(over0, over, clear, b, drop);
    DroppedAffected(p, over0, clear, start, stop, b);
    ClearedOthers(over0, over, clear, b, drop);
    forall c | c in work'
      ensures c in p.blocks
              && (c == start || exists a ::
                   Affected(p, over0, clear, start, stop, a) && a in p.term && c in Successors(p.term[a]))
    {
      if c !in next {
        assert c in work;
      }
    }
    HandledMore(over0, over, over', clear, stop, work, next, start);
    forall a, c | a in p.term && Marked(over0, clear, a) && Cleared(over0, over', clear,
      a) && c in Successors(p.term[a])
      ensures Handled(over0, over', clear, stop, work', c)
    {
      if a == b {
        HandledNext(over0, over', clear, stop, work', c);
      } else {
        HandledMore(over0, over, over', clear, stop, work, next, c);
      }
    }
  }

  lemma HandledNext(over0: set<Pair>, over: set<Pair>, clear: set<Value>, stop: Block, work: seq<Block>, b: Block)
    requires b in work
    ensures Handled(over0, over, clear, stop, work, b)
  {
  }

  lemma DropMarks(over0: set<Pair>, over: set<Pair>, clear: set<Value>, b: Block, drop: set<Pair>)
    requires over <= over0 && DropsBlock(over, clear, b, drop) && drop != {}
    ensures Marked(over0, clear, b)
  {
    var k :| k in drop;
    assert Pair(b, k.value) == k;
  }

  lemma WithoutTwice(s: State, over: set<Pair>, drop: set<Pair>)
    requires over <= s.overdefined && drop <= over
    ensures Without(Without(s, s.overdefined - over), drop) == Without(s, s.overdefined - (over - drop))
  {
    assert s.overdefined - (over - drop) == (s.overdefined - over) + drop;
    assert s.values - (s.overdefined - over) - drop == s.values - (s.overdefined - (over - drop));
    assert s.overdefined - (s.overdefined - over) - drop == s.overdefined - (s.overdefined - (over - drop));
    assert s.waited - (s.overdefined - over) - drop == s.waited - (s.overdefined - (over - drop));
  }

  lemma ClearedValues(p: Program, s: State, over: set<Pair>, clear: set<Value>, start: Block, stop: Block)
    requires over <= s.overdefined
             && forall k :: k in s.overdefined ==> (k !in over <==> ToClear(p, s.overdefined, clear, start, stop, k))
    ensures var s' := Without(s, s.overdefined - over);
            && (forall k ::
                 k in s'.overdefined <==> k in s.overdefined && !ToClear(p, s.overdefined, clear, start, stop, k))
            && (forall k :: k in s'.values <==> k in s.values && !ToClear(p, s.overdefined, clear, start, stop, k))
            && (forall k :: k in s'.values ==> s'.values[k] == s.values[k])
  {
    hide Affected;
  }

  lemma OkBlocks(p: Program, s: State)
    requires Ok(p, s)
    ensures p.term.Keys == p.blocks && forall k :: k in s.overdefined ==> k in s.values
  {
  }

  class LazyValueInfoCache {
    const p: Program
    /** ValueCache, by block and value. */
    var values: Cache
    /** OverDefinedCache. */
    var overdefined: set<Pair>
    var seen: set<Block>
    /** BlockValueStack. */
    var stack: seq<Pair>
    /** The pairs whose first visit could not finish. */
    ghost var waited: set<Pair>

    ghost function Now(): State
      reads this
    {
      State(values, overdefined, seen, stack, waited)
    }

    ghost predicate Valid()
      reads this
    {
      Ok(p, Now())
    }

    constructor (p: Program)
      requires WellFormed(p) && p.rules.Sound()
      ensures Valid() && this.p == p && values == map[] && overdefined == {} && stack == [] && seen == {}
              && waited == {}
    {
      this.p := p;
      values, overdefined, seen, stack, waited := map[], {}, {}, [], {};
    }

    method HasBlockValue(v: Value, b: Block) returns (r: bool)
      ensures r <==> v.Const? || Pair(b, v) in values
    {
      if v.Const? {
        return true;
      }
      return Pair(b, v) in values;
    }

    method GetBlockValue(v: Value, b: Block) returns (r: Lattice)
      requires v.Const? || Pair(b, v) in values
      modifies this`seen
      ensures r == BlockValue(values, b, v) && seen == if v.Const? then old(seen) else old(seen) + {b}
    {
      if v.Const? {
        return OfConstant(v.c);
      }
      seen := seen + {b};
      return values[Pair(b, v)];
    }

    /** The value of v on the edge; false, with the pair pushed, if its block has to be solved first. */
    method GetEdgeValue(v: Value, f: Block, t: Block) returns (ok: bool, r: Lattice)
      requires f in p.term
      modifies this`seen, this`stack
      ensures old(seen) <= seen
      ensures match EdgeValue(p, values, v, f, t)
              case Got(l) => ok && r == l && stack == old(stack)
              case Wait(first) => !ok && stack == old(stack) + first
    {
      if v.Const? {
        return true, OfConstant(v.c);
      }
      r := Undefined;
      var local := EdgeLocal(p, v, f, t);
      if local.Some? {
        r := local.value;
        if !r.InRange? || r.range.IsSingle() {
          return true, r;
        }
        var has := HasBlockValue(v, f);
        if !has {
          stack := stack + [Pair(f, v)];
          return false, r;
        }
        var inBlock := GetBlockValue(v, f);
        if !inBlock.InRange? {
          return true, r;
        }
        return true, OfRange(p.rules.intersect(r.range, inBlock.range));
      }
      var has := HasBlockValue(v, f);
      if !has {
        stack := stack + [Pair(f, v)];
        return false, r;
      }
      r := GetBlockValue(v, f);
      ok := true;
    }

    /** The loop over predecessors or phi entries: merges until nothing is known or an edge is missing;
        from then on it only pushes what is missing. */
    method SolveEdges(es: seq<(Value, Block)>, t: Block) returns (done: bool, r: Lattice)
      requires EdgesOk(p, es)
      modifies this`seen, this`stack
      ensures old(seen) <= seen
      ensures match MergeEdges(p, values, es, t, Undefined)
              case Got(l) => done && r == l && stack == old(stack)
              case Wait(first) => !done && stack == old(stack) + first
    {
      hide MergeEdges, Missing, EdgeValue, EdgesOk, Rules.Merge;
      var result := new LatticeVal();
      var edgesMissing := false;
      var i := 0;
      assert es[0..] == es;
      while i < |es|
        invariant 0 <= i <= |es| && fresh(result) && old(seen) <= seen && EdgesOk(p, es[i..])
        invariant !edgesMissing ==>
          stack == old(stack)
            && MergeEdges(p, values, es, t, Undefined) == MergeEdges(p, values, es[i..], t, result.value)
        invariant edgesMissing ==>
          MergeEdges(p, values, es, t, Undefined).Wait?
          && old(stack) + MergeEdges(p, values, es, t, Undefined).first == stack + Missing(p, values, es[i..], t)
      {
        OneEdge(p, values, es, t, i, result.value);
        ghost var before := stack;
        var ok, edgeResult := GetEdgeValue(es[i].0, es[i].1, t);
        edgesMissing := edgesMissing || !ok;
        i := i + 1;
        if edgesMissing {
          continue;
        }
        var _ := result.MergeIn(p.rules, edgeResult);
        if result.value.Overdefined? {
          return true, result.value;
        }
      }
      NoEdge(p, values, t, result.value);
      assert es[i..] == [];
      return !edgesMissing, result.value;
    }

    method SolveBlockValueNonLocal(v: Var, b: Block) returns (done: bool, r: Lattice)
      requires b in p.preds && EdgesOk(p, PredEdges(Variable(v), p.preds[b]))
      modifies this`seen, this`stack
      ensures old(seen) <= seen
      ensures match NonLocal(p, values, v, b)
              case Got(l) => done && r == l && stack == old(stack)
              case Wait(first) => !done && stack == old(stack) + first
    {
      var notNull := (v, b) in p.nonNull;
      if b == p.entry {
        return true, if notNull then NotKnown(p.rules.nullId) else Overdefined;
      }
      done, r := SolveEdges(PredEdges(Variable(v), p.preds[b]), b);
      if done && r.Overdefined? && notNull {
        r := NotKnown(p.rules.nullId);
      }
    }

    method SolveBlockValueConstantRange(v: Var, b: Block) returns (done: bool, r: Lattice)
      requires v in p.def && p.def[v].Arith? && p.def[v].block == b && !p.def[v].rhs.VarRhs?
      modifies this`seen, this`stack
      ensures old(seen) <= seen
      ensures match ArithValue(p, values, p.def[v])
              case Got(l) => done && r == l && stack == old(stack)
              case Wait(first) => !done && stack == old(stack) + first
    {
      var d := p.def[v];
      var has := HasBlockValue(d.operand, b);
      if !has {
        stack := stack + [Pair(b, d.operand)];
        return false, Undefined;
      }
      var lhs := GetBlockValue(d.operand, b);
      if !lhs.InRange? {
        return true, Overdefined;
      }
      var rhs := if d.rhs.ConstRhs? then Single(d.rhs.width, d.rhs.k) else Full(1);
      var result := new LatticeVal();
      if d.op.Unhandled? {
        var _ := result.MarkOverdefined();
      } else {
        var _ := result.MarkConstantRange(p.rules.apply(d.op, d.width, lhs.range, rhs));
      }
      return true, result.value;
    }

    /** One work item: reuse what is cached, or mark the pair and try to solve it. */
    method SolveBlockValue(k: Pair) returns (done: bool)
      requires Valid() && InProgram(p, k)
      modifies this
      ensures Valid() && Stepped(p, k, old(Now()), Now(), done)
    {
      hide Transfer, Ok, Stepped, EdgesOk, WellFormed;
      OkParts(p, Now(), k);
      if k.value.Const? {
        ReusedStep(p, k, Now(), Now());
        return true;
      }
      var v, b := k.value.v, k.block;
      seen := seen + {b};
      if k in values && !values[k].Undefined? {
        ReusedStep(p, k, old(Now()), Now());
        SteppedOk(p, k, old(Now()), Now(), true);
        return true;
      }
      values := values[k := Overdefined];
      ghost var marked := Now();
      var r;
      done, r := Dispatch(v, b);
      ghost var first := stack[|marked.stack|..];
      if done {
        values := values[k := r];
        if r.Overdefined? {
          overdefined := overdefined + {k};
        }
      } else {
        waited := waited + {k};
      }
      SolvedStep(p, k, old(Now()), Now(), done, if done then Got(r) else Wait(first));
      SteppedOk(p, k, old(Now()), Now(), done);
    }

    /** The kinds of definitions, in the order in which they are tried. */
    method Dispatch(v: Var, b: Block) returns (done: bool, r: Lattice)
      requires WellFormed(p) && v in p.vars && b in p.blocks
      modifies this`seen, this`stack
      ensures old(seen) <= seen
      ensures EdgesOk(p, PredEdges(Variable(v), p.preds[b])) && (p.def[v].Phi? ==> EdgesOk(p, p.def[v].incoming))
      ensures match Transfer(p, values, v, b)
              case Got(l) => done && r == l && stack == old(stack)
              case Wait(first) => !done && stack == old(stack) + first
    {
      hide NonLocal, MergeEdges, EdgesOk;
      EdgesAreOk(p, v, b);
      if !DefinedIn(p, v, b) {
        done, r := SolveBlockValueNonLocal(v, b);
        return;
      }
      match p.def[v] {
        case Phi(_, incoming) =>
          done, r := SolveEdges(incoming, b);
        case Alloca(_) =>
          return true, NotKnown(p.rules.nullId);
        case Arith(_, _, _, _, rhs) =>
          if rhs.VarRhs? {
            return true, Overdefined;
          }
          done, r := SolveBlockValueConstantRange(v, b);
        case _ =>
          return true, Overdefined;
      }
    }

    /** Works the stack off.  Afterwards everything that was on it has an entry, and what was solved
        before is as it was. */
    method Solve()
      requires Valid()
      modifies this
      ensures Valid() && stack == [] && Working(p, old(Now()), Now())
    {
      hide Ok, Stepped, Unsolved, FirstQueried, Working, InProgram, WellFormed;
      StartWorking(p, Now());
      while stack != []
        invariant Valid() && Working(p, old(Now()), Now())
        decreases |Unsolved(p, values)|, |stack|
      {
        ghost var before := Now();
        TopInProgram(p, before);
        var done := SolveBlockValue(stack[|stack| - 1]);
        WorkingStep(p, old(Now()), before, Now(), done);
        if done {
          DonePops(p, before, Now());
          PoppedOk(p, Now());
          stack := stack[..|stack| - 1];
        }
      }
    }

    // ---------------------------------------------------------------- queries

    /** The value of v at the end of b. */
    method GetValueInBlock(v: Value, b: Block) returns (r: Lattice)
      requires Valid() && stack == [] && b in p.blocks && Within(p, v)
      modifies this
      ensures Valid() && stack == [] && BoundsBlock(p, v, b, r)
      ensures r == Queried(p, old(values), Pair(b, v))
      ensures HasToWait(p, old(values), Pair(b, v)) ==> Pair(b, v) !in overdefined && r == Overdefined
      ensures v.Variable? ==>
                (IndexComplete(values, overdefined)
                 <==> IndexComplete(old(values), old(overdefined)) && !HasToWait(p, old(values), Pair(b, v)))
      ensures forall k :: IsDefined(old(values), k) ==> IsDefined(values, k) && values[k] == old(values)[k]
    {
      hide Ok, Queried, Unsolved, Working, WellFormed, BlockValue, HasToWait;
      var k := Pair(b, v);
      OkParts(p, Now(), k);
      ghost var before := Now();
      stack := [k];
      Pushed(p, before, Now(), k);
      Solve();
      QueryAnswered(p, before, before.(stack := [k]), Now(), k);
      ghost var solved := Now();
      r := GetBlockValue(v, b);
      OkWithSeen(p, solved, Now());
    }

    /** The value of v when control goes from f to t; asking again after solving always succeeds. */
    method GetValueOnEdge(v: Value, f: Block, t: Block) returns (r: Lattice)
      requires Valid() && stack == [] && f in p.blocks && t in p.blocks && Within(p, v)
      modifies this
      ensures Valid() && stack == [] && BoundsEdge(p, v, f, t, r)
      ensures EdgeValue(p, values, v, f, t) == Got(r)
      ensures EdgeValue(p, old(values), v, f, t).Got? ==> values == old(values) && overdefined == old(overdefined)
      ensures IndexComplete(values, overdefined)
              <==> IndexComplete(old(values), old(overdefined))
                   && (EdgeValue(p, old(values), v, f, t).Wait? ==> !HasToWait(p, old(values), Pair(f, v)))
      ensures forall k :: IsDefined(old(values), k) ==> IsDefined(values, k) && values[k] == old(values)[k]
    {
      hide Ok, Unsolved, EdgeValue;
      OkParts(p, Now(), Pair(f, v));
      ghost var before := Now();
      EdgeAsks(p, values, v, f, t);
      var ok;
      ok, r := GetEdgeValue(v, f, t);
      if ok {
        OkWithSeen(p, before, Now());
      } else {
        var k := Pair(f, v);
        Pushed(p, before, Now(), k);
        ghost var pushed := Now();
        Solve();
        QueryAnswered(p, before, pushed, Now(), k);
        EdgeAsks(p, values, v, f, t);
        ghost var solved := Now();
        ok, r := GetEdgeValue(v, f, t);
        assert ok;
        OkWithSeen(p, solved, Now());
      }
      OkSound(p, Now());
      EdgeBounds(p, values, v, f, t);
    }

    // ---------------------------------------------------------------- updates

    /** A block has been deleted. */
    method EraseBlock(b: Block)
      requires Valid() && stack == []
      modifies this
      ensures Valid() && stack == []
      ensures forall k :: k in values <==> k in old(values) && k.block != b
      ensures forall k :: k in values ==> values[k] == old(values)[k]
      ensures overdefined == set k | k in old(overdefined) && k.block != b
    {
      hide Ok, Without;
      if b !in seen {
        NotSeen(p, Now(), b);
        return;
      }
      ghost var drop := set k | k in values && k.block == b;
      var toErase := set k | k in overdefined && k.block == b;
      WithoutOk(p, Now(), drop);
      DroppedBlock(p, Now(), b, drop, toErase);
      ErasedOk(p, Without(Now(), drop), b);
      seen := seen - {b};
      overdefined := overdefined - toErase;
      values := values - (set k | k in values.Keys && k.block == b);
      waited := waited - drop;
    }

    /** A value has been deleted. */
    method ValueDeleted(v: Var)
      requires Valid() && stack == []
      modifies this`values, this`overdefined, this`waited
      ensures Valid()
      ensures forall k :: k in values <==> k in old(values) && k.value != Variable(v)
      ensures forall k :: k in values ==> values[k] == old(values)[k]
      ensures overdefined == set k | k in old(overdefined) && k.value != Variable(v)
    {
      hide WellFormed, SoundCache, Rules.Sound;
      ghost var drop := set k | k in values && k.value == Variable(v);
      WithoutOk(p, Now(), drop);
      var toErase := set k | k in overdefined && k.value == Variable(v);
      overdefined := overdefined - toErase;
      values := values - (set k | k in values.Keys && k.value == Variable(v));
      waited := waited - drop;
    }

    method Clear()
      requires Valid() && stack == []
      modifies this
      ensures Valid() && stack == [] && values == map[] && overdefined == {} && seen == {}
    {
      hide WellFormed, Rules.Sound;
      seen, values, overdefined, waited := {}, map[], {}, {};
    }

    /** One block of the worklist: drops the values of `clear` that are overdefined there. */
    method ClearBlock(b: Block, clear: set<Value>) returns (changed: bool)
      requires Valid() && stack == []
      modifies this`values, this`overdefined
      ensures var drop := set v | v in clear && Pair(b, v) in old(overdefined) :: Pair(b, v);
              Valid() && Now() == Without(old(Now()), drop) && (changed <==> drop != {})
    {
      hide WellFormed, SoundCache, Rules.Sound;
      ghost var drop := set v | v in clear && Pair(b, v) in overdefined :: Pair(b, v);
      WithoutOk(p, Now(), drop);
      changed := false;
      var rest := clear;
      while rest != {}
        invariant rest <= clear && (changed <==> exists v :: v in clear - rest && Pair(b, v) in old(overdefined))
        invariant forall k :: k in overdefined <==> k in old(overdefined) && !(k.block == b && k.value in clear - rest)
        invariant forall k :: k in values <==>
                    k in old(values) && !(k in old(overdefined) && k.block == b && k.value in clear - rest)
        invariant forall k :: k in values ==> values[k] == old(values)[k]
      {
        var v :| v in rest;
        rest := rest - {v};
        if Pair(b, v) !in overdefined {
          continue;
        }
        assert Pair(b, v) in values;
        values := values - {Pair(b, v)};
        overdefined := overdefined - {Pair(b, v)};
        changed := true;
      }
      DropExact(drop, clear, old(overdefined), b);
      assert values == old(values) - drop && overdefined == old(overdefined) - drop && waited == old(waited) - drop;
    }

    /** An edge from `pred` to oldSucc now goes to newSucc: drops the values that are overdefined in
        oldSucc, there and in the blocks reached through blocks where one of them is.  There is no list of
        visited blocks. */
    method ThreadEdge(pred: Block, oldSucc: Block, newSucc: Block)
      requires Valid() && stack == [] && oldSucc in p.blocks
               && (forall b :: b in p.blocks ==> forall c :: c in Successors(p.term[b]) ==> c in p.blocks)
      modifies this`values, this`overdefined
      ensures Valid() && stack == []
      ensures var clear := set k | k in old(overdefined) && k.block == oldSucc :: k.value;
              && (forall k :: k in overdefined <==>
                   k in old(overdefined) && !ToClear(p, old(overdefined), clear, oldSucc, newSucc, k))
              && (forall k ::
                   k in values <==> k in old(values) && !ToClear(p, old(overdefined), clear, oldSucc, newSucc, k))
              && (forall k :: k in values ==> values[k] == old(values)[k])
    {
      hide Ok, ToClear, Threading, Without;
      OkBlocks(p, Now());
      var clear := set k | k in overdefined && k.block == oldSucc :: k.value;
      var work := [oldSucc];
      ThreadingStarts(p, overdefined, clear, oldSucc, newSucc);
      WithoutNothing(Now());
      while work != []
        invariant Valid() && stack == [] && Threading(p, old(overdefined), overdefined, clear, oldSucc, newSucc, work)
        invariant Now() == Without(old(Now()), old(overdefined) - overdefined)
        decreases |overdefined|, |work|
      {
        work := ThreadNext(work, clear, oldSucc, newSucc, old(Now()));
      }
      ThreadingBelow(p, old(overdefined), overdefined, clear, oldSucc, newSucc, work);
      ThreadingDone(p, old(overdefined), overdefined, clear, oldSucc, newSucc);
      ClearedValues(p, old(Now()), overdefined, clear, oldSucc, newSucc);
    }

    /** One block of the worklist: where something has been dropped, its successors follow. */
    method ThreadNext(work0: seq<Block>, clear: set<Value>, oldSucc: Block, newSucc: Block, ghost s0: State)
      returns (work: seq<Block>)
      requires Valid() && stack == [] && oldSucc in p.blocks
               && (forall b :: b in p.blocks ==> forall c :: c in Successors(p.term[b]) ==> c in p.blocks)
      requires work0 != [] && p.term.Keys == p.blocks
               && Threading(p, s0.overdefined, overdefined, clear, oldSucc, newSucc, work0)
      requires Now() == Without(s0, s0.overdefined - overdefined)
      modifies this`values, this`overdefined
      ensures Valid() && stack == [] && Threading(p, s0.overdefined, overdefined, clear, oldSucc, newSucc, work)
      ensures Now() == Without(s0, s0.overdefined - overdefined)
      ensures |overdefined| < |old(overdefined)| || (overdefined == old(overdefined) && |work| < |work0|)
    {
      hide Ok, ToClear, Threading, Without;
      var b := work0[|work0| - 1];
      work := work0[..|work0| - 1];
      if b == newSucc {
        ThreadingSkips(p, s0.overdefined, overdefined, clear, oldSucc, newSucc, work0);
        return;
      }
      ghost var over := overdefined;
      ghost var drop := set v | v in clear && Pair(b, v) in over :: Pair(b, v);
      ThreadingBelow(p, s0.overdefined, over, clear, oldSucc, newSucc, work0);
      DropExact(drop, clear, over, b);
      DropWithin(over, clear, b, drop);
      WithoutTwice(s0, over, drop);
      WithoutIs(Now(), drop);
      var changed := ClearBlock(b, clear);
      if !changed {
        NoneDropped(over, clear, b, drop);
        ThreadingSkips(p, s0.overdefined, over, clear, oldSucc, newSucc, work0);
        return;
      }
      ThreadingGoesOn(p, s0.overdefined, over, clear, oldSucc, newSucc, work0, drop);
      SubsetSize(over - drop, over);
      work := work + Successors(p.term[b]);
    }
  }

  lemma WithoutNothing(s: State)
    ensures Without(s, s.overdefined - s.overdefined) == s
  {
    assert s.overdefined - s.overdefined == {};
    assert s.values - {} == s.values;
  }

  lemma WithoutIs(s: State, drop: set<Pair>)
    ensures Without(s, drop).overdefined == s.overdefined - drop && Without(s, drop).stack == s.stack
  {
  }

  lemma ThreadingBelow(p: Program, over0: set<Pair>, over: set<Pair>, clear: set<Value>, start: Block, stop: Block,
                       work: seq<Block>)
    requires Threading(p, over0, over, clear, start, stop, work)
    ensures over <= over0
  {
  }

  lemma DropWithin(over: set<Pair>, clear: set<Value>, b: Block, drop: set<Pair>)
    requires DropsBlock(over, clear, b, drop)
    ensures drop <= over
  {
  }

  lemma NoneDropped(over: set<Pair>, clear: set<Value>, b: Block, drop: set<Pair>)
    requires DropsBlock(over, clear, b, drop) && drop == {}
    ensures forall v :: v in clear ==> Pair(b, v) !in over
    ensures over - drop == over
  {
    forall v | v in clear
      ensures Pair(b, v) !in over
    {
      assert Pair(b, v) in over <==> Pair(b, v) in drop;
    }
  }

  lemma StartWorking(p: Program, s: State)
    requires Ok(p, s)
    ensures Working(p, s, s)
  {
    hide SoundCache, WellFormed, Indexed, Rules.Sound, Queried;
    forall k | k in s.stack
      ensures InProgram(p, k)
    {
    }
  }

  lemma DonePops(p: Program, s: State, s': State)
    requires Ok(p, s) && s.stack != [] && InProgram(p, s.stack[|s.stack| - 1])
             && Stepped(p, s.stack[|s.stack| - 1], s, s', true)
    ensures s'.stack == s.stack
  {
    hide SoundCache, WellFormed, Step, Indexed, Rules.Sound;
  }

  /** Putting a pair on the stack. */
  lemma Pushed(p: Program, s: State, s': State, k: Pair)
    requires Ok(p, s) && InProgram(p, k) && s' == s.(stack := [k], seen := s'.seen) && s.seen <= s'.seen
    ensures Ok(p, s')
  {
    hide SoundCache, WellFormed, Indexed, Rules.Sound;
  }

  lemma OkWithSeen(p: Program, s: State, s': State)
    requires Ok(p, s) && s' == s.(seen := s'.seen) && s.seen <= s'.seen
    ensures Ok(p, s')
  {
    hide SoundCache, WellFormed, Indexed, Rules.Sound, InProgram;
  }

  lemma OkSound(p: Program, s: State)
    requires Ok(p, s)
    ensures WellFormed(p) && p.rules.Sound() && SoundCache(p, s.values)
  {
  }

  lemma ConstantBounds(p: Program, c: Constant, b: Block)
    requires WellFormed(p)
    ensures BoundsBlock(p, Const(c), b, OfConstant(c))
  {
    hide WellFormed;
    forall at | Occurs(p, at) && at.block == b
      ensures p.rules.Allows(OfConstant(c), ValueOf(p, at, Const(c)))
    {
      p.rules.OfConstantAllows(c, ValueOf(p, at, Const(c)));
    }
  }

  /** After solving a stack with one pair. */
  lemma QueryAnswered(p: Program, s0: State, s1: State, s: State, k: Pair)
    requires Ok(p, s0) && InProgram(p, k) && s1 == s0.(stack := [k], seen := s1.seen) && Working(p, s1, s)
             && s.stack == []
    ensures k.value.Const? || k in s.values
    ensures BlockValue(s.values, k.block, k.value) == Queried(p, s0.values, k)
    ensures HasToWait(p, s0.values, k) ==> k !in s.overdefined && BlockValue(s.values, k.block, k.value) == Overdefined
    ensures k.value.Variable? ==>
              (IndexComplete(s.values, s.overdefined) <==>
                  IndexComplete(s0.values, s0.overdefined) && !HasToWait(p, s0.values, k))
    ensures BoundsBlock(p, k.value, k.block, BlockValue(s.values, k.block, k.value))
    ensures forall n :: IsDefined(s0.values, n) ==> IsDefined(s.values, n) && s.values[n] == s0.values[n]
  {
    hide WellFormed, Rules.Sound, Step, Pairs, Indexed, IndexComplete;
    CompleteIff(s0.values, s0.overdefined, s0.waited);
    CompleteIff(s.values, s.overdefined, s.waited);
    if k.value.Const? {
      ConstantBounds(p, k.value.c, k.block);
    } else {
      assert s1.stack[0] == k;
      assert SoundCache(p, s.values);
    }
  }

  lemma NotSeen(p: Program, s: State, b: Block)
    requires Ok(p, s) && b !in s.seen
    ensures forall k :: k in s.values ==> k.block != b
    ensures s.overdefined == set k | k in s.overdefined && k.block != b
  {
    hide WellFormed, SoundCache, Rules.Sound, InProgram;
  }

  /** The index loses what the cache loses. */
  lemma DroppedBlock(p: Program, s: State, b: Block, drop: set<Pair>, toErase: set<Pair>)
    requires Ok(p, s) && drop == (set k | k in s.values && k.block == b)
             && toErase == (set k | k in s.overdefined && k.block == b)
    ensures Without(s, drop) == State(s.values - drop, s.overdefined - toErase, s.seen, s.stack, s.waited - drop)
    ensures forall k :: k in Without(s, drop).values ==> k.block != b
  {
    hide WellFormed, SoundCache, Rules.Sound, InProgram;
    assert s.overdefined - toErase == s.overdefined - drop;
  }

  lemma ErasedOk(p: Program, s: State, b: Block)
    requires Ok(p, s) && forall k :: k in s.values ==> k.block != b
    ensures Ok(p, s.(seen := s.seen - {b}))
  {
    hide WellFormed, SoundCache, Rules.Sound, Indexed, InProgram;
  }

  // ---------------------------------------------------------------- what the index and the order of queries do

  /** entry: if (v == 5) goto a; else goto d.  a: goto b. */
  function Chain(e: Block, a: Block, b: Block, d: Block, v: Var, c: Var, ru: Rules): Program {
    Program(e, {e, a, b, d}, map[e := [], a := [e], b := [a], d := [e]], {v, c}, map[v := Argument, c := Other(e)],
            map[e := Branch(Variable(c), Some(Compare(EQ, Variable(v), ConstInt(32, 5), None)), a, d),
                a := Jump([b]), b := Jump([]), d := Jump([])], {}, ru)
  }

  lemma ChainUses(e: Block, a: Block, b: Block, d: Block, v: Var, c: Var, ru: Rules)
    requires e != a && e != b && e != d && a != b && a != d && b != d && v != c
    ensures var p := Chain(e, a, b, d, v, c, ru);
            forall x, u :: x in p.blocks && u in TermUses(p.term[x]) ==> Within(p, u)
  {
    hide Successors;
  }

  lemma ChainWellFormed(e: Block, a: Block, b: Block, d: Block, v: Var, c: Var, ru: Rules)
    requires e != a && e != b && e != d && a != b && a != d && b != d && v != c
    ensures WellFormed(Chain(e, a, b, d, v, c, ru))
  {
    hide TermUses, Successors;
    ChainUses(e, a, b, d, v, c, ru);
    ChainEdges(e, a, b, d, v, c, ru);
  }

  lemma ChainEdges(e: Block, a: Block, b: Block, d: Block, v: Var, c: Var, ru: Rules)
    requires e != a && e != b && e != d && a != b && a != d && b != d && v != c
    ensures var p := Chain(e, a, b, d, v, c, ru);
            forall x, y :: x in p.blocks && y in p.blocks && y in Successors(p.term[x]) ==> x in p.preds[y]
  {
    var p := Chain(e, a, b, d, v, c, ru);
    assert Successors(p.term[e]) == [a, d];
    forall x, y | x in p.blocks && y in p.blocks && y in Successors(p.term[x])
      ensures x in p.preds[y]
    {
    }
  }

  lemma ChainFirst(e: Block, a: Block, b: Block, d: Block, v: Var, c: Var, ru: Rules)
    requires e != a && e != b && e != d && a != b && a != d && b != d && v != c
    ensures var p := Chain(e, a, b, d, v, c, ru);
            && WellFormed(p) && Queried(p, map[], Pair(a, Variable(v))) == InRange(Single(32, 5))
  {
    ChainWellFormed(e, a, b, d, v, c, ru);
    var p := Chain(e, a, b, d, v, c, ru);
    var cache := map[Pair(a, Variable(v)) := Overdefined];
    var es := PredEdges(Variable(v), p.preds[a]);
    assert es == [(Variable(v), e)] && es[1..] == [];
    SingleIsSingle(32, 5);
    assert EdgeLocal(p, Variable(v), e, a) == Some(InRange(Single(32, 5)));
    assert EdgeValue(p, cache, Variable(v), e, a) == Got(InRange(Single(32, 5)));
    assert MergeEdges(p, cache, es, a, Undefined) == Got(InRange(Single(32, 5)));
  }

  /** Asked for b alone, the solver knows nothing; asked for a before b, it knows that v is 5. */
  lemma OrderMatters(e: Block, a: Block, b: Block, d: Block, v: Var, c: Var, ru: Rules)
    requires e != a && e != b && e != d && a != b && a != d && b != d && v != c
    ensures var p, ka, kb := Chain(e, a, b, d, v, c, ru), Pair(a, Variable(v)), Pair(b, Variable(v));
            && WellFormed(p) && HasToWait(p, map[], kb) && Queried(p, map[], kb) == Overdefined
            && Queried(p, map[ka := Queried(p, map[], ka)], kb) == InRange(Single(32, 5))
  {
    ChainWellFormed(e, a, b, d, v, c, ru);
    ChainFirst(e, a, b, d, v, c, ru);
    var p, ka, kb := Chain(e, a, b, d, v, c, ru), Pair(a, Variable(v)), Pair(b, Variable(v));
    var es := PredEdges(Variable(v), p.preds[b]);
    assert es == [(Variable(v), a)] && es[1..] == [];
    var five := InRange(Single(32, 5));
    var alone := map[kb := Overdefined];
    var after := map[ka := five][kb := Overdefined];
    assert EdgeLocal(p, Variable(v), a, b) == None;
    assert EdgeValue(p, alone, Variable(v), a, b) == Wait([ka]);
    assert MergeEdges(p, alone, es, b, Undefined).Wait?;
    assert EdgeValue(p, after, Variable(v), a, b) == Got(five);
    assert MergeEdges(p, after, es, b, Undefined) == Got(five);
  }
}
