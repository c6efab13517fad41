// The getelementptr part of BasicAliasAnalysis: two pointers over one object are compared through
// the linear forms of their offsets.
module BasicAliasAnalysis {
  import opened MachineIntegers
  import opened GepLinear

  const UNKNOWN_SIZE: Word := 0xFFFF_FFFF_FFFF_FFFF

  // ---------------------------------------------------------------- decomposition

  const MAX_LOOKUP := 6

  datatype Decomposed = Decomposed(base: Ptr, form: Form, maxLookupReached: bool)

  /** What is left of the chain after n more steps. */
  function Decompose(facts: Facts, p: Ptr, f: Form, n: nat): Decomposed
    decreases n
  {
    if n == 0 then Decomposed(p, f, true)
    else
      match p
      case Object(_) => Decomposed(p, f, false)
      case Through(to) => Decompose(facts, to, f, n - 1)
      case Gep(base, indices, sized) =>
        if !sized then Decomposed(p, f, false) else Decompose(facts, base, AddIndices(facts, f, indices), n - 1)
  }

  function DecomposeGEP(facts: Facts, p: Ptr): Decomposed {
    Decompose(facts, p, Form(0, []), MAX_LOOKUP)
  }

  predicate SafeIndices(facts: Facts, indices: seq<Index>) {
    forall i :: 0 <= i < |indices| ==> SafeIndex(facts, indices[i])
  }

  /** The linear forms of all subscripts are exact. */
  predicate SafePtr(facts: Facts, p: Ptr) {
    match p
    case Object(_) => true
    case Through(to) => SafePtr(facts, to)
    case Gep(base, indices, _) => SafeIndices(facts, indices) && SafePtr(facts, base)
  }

  lemma {:induction false} AddIndicesExact(facts: Facts, f: Form, indices: seq<Index>, env: Vals)
    requires SafeIndices(facts, indices) && MaskedHolds(facts, env)
    ensures Cong(MODULUS, Value(AddIndices(facts, f, indices), env), Value(f, env) + OffsetSum(indices, env))
    decreases |indices|
  {
    hide Cong, Value, IndexOffset, MaskedHolds, AddIndex, SafeIndex;
    if indices == [] {
      CongSame(MODULUS, Value(f, env));
    } else {
      var g := AddIndex(facts, f, indices[0]);
      AddIndexExact(facts, f, indices[0], env);
      AddIndicesExact(facts, g, indices[1..], env);
      var rest := OffsetSum(indices[1..], env);
      CongSame(MODULUS, rest);
      CongAdd(MODULUS, Value(g, env), Value(f, env) + IndexOffset(indices[0], env), rest, rest);
      CongTrans(MODULUS, Value(AddIndices(facts, f, indices), env), Value(g, env) + rest,
        Value(f, env) + OffsetSum(indices, env));
    }
  }

  /** An address is the address of the base plus the value of the form, modulo 2^64. */
  lemma {:induction false} DecomposeExact(facts: Facts, p: Ptr, f: Form, n: nat, env: Env)
    requires SafePtr(facts, p) && MaskedHolds(facts, env.vals)
    ensures var d := Decompose(facts, p, f, n);
            Cong(MODULUS, Address(p, env) + Value(f, env.vals), Address(d.base, env) + Value(d.form, env.vals))
    decreases n
  {
    hide Cong, Value, MaskedHolds, Unsigned, OffsetSum, AddIndices, SafeIndices;
    var d := Decompose(facts, p, f, n);
    if n == 0 || p.Object? || (p.Gep? && !p.sized) {
      CongSame(MODULUS, Address(p, env) + Value(f, env.vals));
    } else if p.Through? {
      DecomposeExact(facts, p.to, f, n - 1, env);
    } else {
      var g := AddIndices(facts, f, p.indices);
      DecomposeExact(facts, p.base, g, n - 1, env);
      AddIndicesExact(facts, f, p.indices, env.vals);
      GepStep(Address(p.base, env), OffsetSum(p.indices, env.vals), Value(f, env.vals), Value(g, env.vals),
              Address(d.base, env) + Value(d.form, env.vals));
    }
  }

  lemma GepStep(a: int, o: int, f: int, g: int, end: int)
    requires Cong(MODULUS, g, f + o) && Cong(MODULUS, a + g, end)
    ensures Cong(MODULUS, Unsigned(a + o) + f, end)
  {
    hide Cong, Unsigned;
    SignedCong(a + o);
    CongSame(MODULUS, f);
    CongAdd(MODULUS, Unsigned(a + o), a + o, f, f);
    CongSame(MODULUS, a);
    CongAdd(MODULUS, a, a, g, f + o);
    CongSym(MODULUS, a + g, a + (f + o));
    CongTrans(MODULUS, Unsigned(a + o) + f, a + (f + o), a + g);
    CongTrans(MODULUS, Unsigned(a + o) + f, a + g, end);
  }

  lemma {:induction false} AddIndicesReduced(facts: Facts, f: Form, indices: seq<Index>)
    requires Reduced(f.vars) && IsSigned(f.offset)
    ensures Reduced(AddIndices(facts, f, indices).vars) && IsSigned(AddIndices(facts, f, indices).offset)
    decreases |indices|
  {
    hide Reduced, AddVariable, IndexForm, Signed, Unsigned, SignedAt, VarOf;
    if indices != [] {
      var g := AddIndex(facts, f, indices[0]);
      match indices[0] {
        case Field(number, offset) => SignedCong(f.offset + offset);
        case Element(size, ConstIndex(k)) => SignedCong(f.offset + size * k);
        case Element(size, VarSubscript(e, width)) =>
          var l := IndexForm(facts, e, width);
          var o, scale := SignedAt(width, l.offset), Unsigned(size * SignedAt(width, l.scale));
          SignedCong(f.offset + o * size);
          AddVariableReduced(f.(offset := Signed(f.offset + o * size)), VarOf(l), scale);
          AddVariableOffset(f.(offset := Signed(f.offset + o * size)), VarOf(l), scale);
      }
      AddIndicesReduced(facts, g, indices[1..]);
    }
  }

  lemma AddVariableOffset(f: Form, v: Expr, scale: Word)
    ensures AddVariable(f, v, scale).offset == f.offset
  {
  }

  lemma {:induction false} DecomposeReduced(facts: Facts, p: Ptr, f: Form, n: nat)
    requires Reduced(f.vars) && IsSigned(f.offset)
    ensures var d := Decompose(facts, p, f, n); Reduced(d.form.vars) && IsSigned(d.form.offset)
    decreases n
  {
    hide Reduced, AddIndices;
    if n > 0 && p.Through? {
      DecomposeReduced(facts, p.to, f, n - 1);
    } else if n > 0 && p.Gep? && p.sized {
      AddIndicesReduced(facts, f, p.indices);
      DecomposeReduced(facts, p.base, AddIndices(facts, f, p.indices), n - 1);
    }
  }

  /** DecomposeGEPExpression: every variable is listed once, and its scale is not zero. */
  method DecomposeGEPExpression(facts: Facts, p: Ptr) returns (base: Ptr, form: Form, maxLookupReached: bool)
    ensures Decomposed(base, form, maxLookupReached) == DecomposeGEP(facts, p)
    ensures Reduced(form.vars) && IsSigned(form.offset)
  {
    hide AddIndex, Reduced;
    base, form, maxLookupReached := p, Form(0, []), false;
    assert Reduced(form.vars) by { NoVars(); }
    DecomposeReduced(facts, p, form, MAX_LOOKUP);
    var maxLookup := MAX_LOOKUP;
    while maxLookup > 0
      invariant 0 <= maxLookup <= MAX_LOOKUP
      invariant Decompose(facts, base, form, maxLookup) == DecomposeGEP(facts, p)
    {
      match base {
        case Object(_) => return;
        case Through(to) => base := to;
        case Gep(b, indices, sized) =>
          if !sized {
            return;
          }
          ghost var start := form;
          var i := 0;
          assert indices[0..] == indices;
          while i < |indices|
            invariant 0 <= i <= |indices| && AddIndices(facts, form, indices[i..]) == AddIndices(facts, start, indices)
          {
            assert indices[i..][0] == indices[i] && indices[i..][1..] == indices[i + 1..];
            form := AddSubscript(facts, form, indices[i]);
            i := i + 1;
          }
          assert indices[i..] == [];
          base := b;
      }
      maxLookup := maxLookup - 1;
    }
    maxLookupReached := true;
  }

  lemma NoVars()
    ensures Reduced([])
  {
  }

  /** The body of the loop over the indices of a getelementptr. */
  method AddSubscript(facts: Facts, f: Form, ix: Index) returns (g: Form)
    ensures g == AddIndex(facts, f, ix)
  {
    hide GetLinearExpression, SignedAt, Signed, Unsigned, VarOf;
    var baseOffs, vars := f.offset, f.vars;
    match ix {
      case Field(number, offset) =>
        if number == 0 {
          return f;
        }
        return f.(offset := Signed(baseOffs + offset));
      case Element(size, at) =>
        if at.ConstIndex? {
          if at.k == 0 {
            return f;
          }
          return f.(offset := Signed(baseOffs + size * at.k));
        }
        var l := GetLinearExpression(facts, at.e, at.width, if at.width < 64 then SignExt else NotExtended, 0);
        var v := VarOf(l);
        baseOffs := Signed(baseOffs + SignedAt(at.width, l.offset) * size);
        var scale := Unsigned(size * SignedAt(at.width, l.scale));
        var i := 0;
        while i < |vars|
          invariant 0 <= i <= |vars| && vars == f.vars && scale == Unsigned(size * SignedAt(at.width, l.scale))
          invariant FindVar(f.vars, v, 0) == FindVar(f.vars, v, i)
        {
          if vars[i].v == v {
            break;
          }
          i := i + 1;
        }
        if i < |vars| {
          scale := Unsigned(scale + vars[i].scale);
          vars := Without(vars, i);
        }
        if scale != 0 {
          vars := vars + [VarIndex(v, Signed(scale))];
        }
        return Form(baseOffs, vars);
    }
  }

  // ---------------------------------------------------------------- differences

  /** isValueEqualInPotentialCycles. */
  predicate SameValue(facts: Facts, a: Expr, b: Expr) {
    a == b && facts.same(a)
  }

  function FindSame(facts: Facts, dest: seq<VarIndex>, v: Expr, j: nat): (r: nat)
    requires j <= |dest|
    ensures j <= r <= |dest| && (r < |dest| ==> SameValue(facts, dest[r].v, v))
    decreases |dest| - j
  {
    if j == |dest| || SameValue(facts, dest[j].v, v) then j else FindSame(facts, dest, v, j + 1)
  }

  /** dest without s. */
  function Subtract(facts: Facts, dest: seq<VarIndex>, s: VarIndex): seq<VarIndex> {
    var j := FindSame(facts, dest, s.v, 0);
    if j == |dest| then (if s.scale == 0 then dest else dest + [VarIndex(s.v, Signed(-s.scale))])
    else if dest[j].scale != s.scale then dest[j := VarIndex(dest[j].v, Signed(dest[j].scale - s.scale))]
    else Without(dest, j)
  }

  function SubtractAll(facts: Facts, dest: seq<VarIndex>, src: seq<VarIndex>): seq<VarIndex>
    decreases |src|
  {
    if src == [] then dest else SubtractAll(facts, Subtract(facts, dest, src[0]), src[1..])
  }

  method GetIndexDifference(facts: Facts, dest0: seq<VarIndex>, src: seq<VarIndex>) returns (dest: seq<VarIndex>)
    ensures dest == SubtractAll(facts, dest0, src)
  {
    dest := dest0;
    var i := 0;
    assert src[0..] == src;
    while i < |src|
      invariant 0 <= i <= |src| && SubtractAll(facts, dest, src[i..]) == SubtractAll(facts, dest0, src)
    {
      assert src[i..][0] == src[i] && src[i..][1..] == src[i + 1..];
      var v, scale := src[i].v, src[i].scale;
      ghost var before := dest;
      var j := 0;
      while j < |dest| && !SameValue(facts, dest[j].v, v)
        invariant 0 <= j <= |dest| && FindSame(facts, dest, v, 0) == FindSame(facts, dest, v, j)
      {
        j := j + 1;
      }
      if j < |dest| {
        if dest[j].scale != scale {
          dest := dest[j := VarIndex(dest[j].v, Signed(dest[j].scale - scale))];
        } else {
          dest := Without(dest, j);
        }
        scale := 0;
      }
      if scale != 0 {
        dest := dest + [VarIndex(v, Signed(-scale))];
      }
      assert dest == Subtract(facts, before, src[i]);
      i := i + 1;
    }
    assert src[i..] == [];
  }

  /** Entries for the same value in both lists have the same value. */
  ghost predicate Agree(facts: Facts, dest: seq<VarIndex>, vals: seq<int>, src: seq<VarIndex>, svals: seq<int>) {
    && |vals| == |dest| && |svals| == |src|
    && forall j, i {:trigger SameValue(facts, dest[j].v, src[i].v)} ::
         0 <= j < |dest| && 0 <= i < |src| && SameValue(facts, dest[j].v, src[i].v) ==> vals[j] == svals[i]
  }

  ghost predicate IsEntry(dest: seq<VarIndex>, vals: seq<int>, v: Expr, y: int)
    requires |vals| == |dest|
  {
    exists m :: 0 <= m < |dest| && dest[m].v == v && vals[m] == y
  }

  lemma SubtractFound(facts: Facts, dest: seq<VarIndex>, vals: seq<int>, s: VarIndex, y: int, j: nat)
    returns (vals': seq<int>)
    requires |vals| == |dest| && j < |dest| && j == FindSame(facts, dest, s.v, 0) && vals[j] == y
    ensures var d := Subtract(facts, dest, s);
            && |vals'| == |d| && Cong(MODULUS, SumScaled(d, vals'), SumScaled(dest, vals) - s.scale * y)
            && forall n :: 0 <= n < |d| ==> IsEntry(dest, vals, d[n].v, vals'[n])
  {
    hide Cong, Signed, SumScaled;
    if dest[j].scale == s.scale {
      vals' := Without(vals, j);
      SumWithout(dest, vals, j);
      CongSame(MODULUS, SumScaled(Without(dest, j), vals'));
      var d := Without(dest, j);
      forall n | 0 <= n < |d|
        ensures IsEntry(dest, vals, d[n].v, vals'[n])
      {
        var m := if n < j then n else n + 1;
        assert d[n] == dest[m] && vals'[n] == vals[m];
      }
    } else {
      vals' := vals;
      var t := Signed(dest[j].scale - s.scale);
      var d := dest[j := VarIndex(dest[j].v, t)];
      assert d == dest[j := dest[j].(scale := t)];
      SumUpdate(dest, vals, j, t);
      SignedCong(dest[j].scale - s.scale);
      ScaleCong(t, dest[j].scale - s.scale, y);
      UpdateCong(SumScaled(dest, vals), t, dest[j].scale, s.scale, y);
      forall n | 0 <= n < |d|
        ensures IsEntry(dest, vals, d[n].v, vals'[n])
      {
        assert d[n].v == dest[n].v && vals'[n] == vals[n];
      }
    }
  }

  lemma UpdateCong(sum: int, t: int, a: int, b: int, y: int)
    requires Cong(MODULUS, t * y, (a - b) * y)
    ensures Cong(MODULUS, sum + (t - a) * y, sum - b * y)
  {
    hide Cong;
    CongSame(MODULUS, sum - a * y);
    CongAdd(MODULUS, sum - a * y, sum - a * y, t * y, (a - b) * y);
    assert sum + (t - a) * y == sum - a * y + t * y;
    assert sum - b * y == sum - a * y + (a - b) * y;
  }

  /** The entry that is subtracted is not in the list: it is added with its scale negated. */
  lemma SubtractNew(facts: Facts, dest: seq<VarIndex>, vals: seq<int>, s: VarIndex, y: int)
    requires |vals| == |dest| && FindSame(facts, dest, s.v, 0) == |dest| && s.scale != 0
    ensures var d := dest + [VarIndex(s.v, Signed(-s.scale))];
            && d == Subtract(facts, dest, s)
            && Cong(MODULUS, SumScaled(d, vals + [y]), SumScaled(dest, vals) - s.scale * y)
  {
    hide Cong, Signed, SumScaled;
    var t := Signed(-s.scale);
    SumAppend(dest, vals, VarIndex(s.v, t), y);
    SignedCong(-s.scale);
    ScaleCong(t, -s.scale, y);
    CongSame(MODULUS, SumScaled(dest, vals));
    CongAdd(MODULUS, SumScaled(dest, vals), SumScaled(dest, vals), t * y, (-s.scale) * y);
  }

  /** The result is the exact difference, modulo 2^64, for values that its variables do have. */
  lemma {:induction false} DifferenceExact(facts: Facts, dest: seq<VarIndex>, vals: seq<int>, src: seq<VarIndex>,
                                           svals: seq<int>)
    returns (vals': seq<int>)
    requires Agree(facts, dest, vals, src, svals) && Reduced(src)
    ensures var d := SubtractAll(facts, dest, src);
            |vals'| == |d| && Cong(MODULUS, SumScaled(d, vals'), SumScaled(dest, vals) - SumScaled(src, svals))
    decreases |src|
  {
    hide Cong, Signed, Subtract, SameValue;
    if src == [] {
      vals' := vals;
      CongSame(MODULUS, SumScaled(dest, vals));
    } else {
      var s, y := src[0], svals[0];
      var j := FindSame(facts, dest, s.v, 0);
      var d := Subtract(facts, dest, s);
      var vals1;
      if j < |dest| {
        assert SameValue(facts, dest[j].v, src[0].v);
        vals1 := SubtractFound(facts, dest, vals, s, y, j);
      } else {
        vals1 := vals + [y];
        SubtractNew(facts, dest, vals, s, y);
        forall n | 0 <= n < |dest|
          ensures IsEntry(dest, vals, d[n].v, vals1[n])
        {
          assert dest[n].v == d[n].v && vals[n] == vals1[n];
        }
      }
      AgreeNext(facts, dest, vals, d, vals1, src, svals);
      vals' := DifferenceExact(facts, d, vals1, src[1..], svals[1..]);
      SumFirst(src, svals);
      CongSame(MODULUS, SumScaled(src[1..], svals[1..]));
      CongAdd(MODULUS, SumScaled(d, vals1), SumScaled(dest, vals) - s.scale * y,
              SumScaled(src[1..], svals[1..]), SumScaled(src[1..], svals[1..]));
      CongTrans(MODULUS, SumScaled(SubtractAll(facts, dest, src), vals'),
        SumScaled(d, vals1) - SumScaled(src[1..], svals[1..]),
                SumScaled(dest, vals) - SumScaled(src, svals));
    }
  }

  lemma AgreeNext(facts: Facts, dest: seq<VarIndex>, vals: seq<int>, d: seq<VarIndex>, vals1: seq<int>,
                  src: seq<VarIndex>, svals: seq<int>)
    requires Agree(facts, dest, vals, src, svals) && Reduced(src) && src != [] && |vals1| == |d|
    requires forall n :: 0 <= n < |d| ==>
               (d[n].v == src[0].v && vals1[n] == svals[0]) || IsEntry(dest, vals, d[n].v, vals1[n])
    ensures Agree(facts, d, vals1, src[1..], svals[1..]) && Reduced(src[1..])
  {
    forall n, i | 0 <= n < |d| && 0 <= i < |src| - 1 && SameValue(facts, d[n].v, src[1..][i].v)
      ensures vals1[n] == svals[1..][i]
    {
      assert src[1..][i] == src[i + 1] && src[i + 1].v != src[0].v;
      var m :| 0 <= m < |dest| && dest[m].v == d[n].v && vals[m] == vals1[n];
      assert SameValue(facts, dest[m].v, src[i + 1].v);
    }
  }

  lemma {:induction false} SumFirst(vars: seq<VarIndex>, vals: seq<int>)
    requires |vals| == |vars| > 0
    ensures SumScaled(vars, vals) == vars[0].scale * vals[0] + SumScaled(vars[1..], vals[1..])
  {
    SumWithout(vars, vals, 0);
    assert Without(vars, 0) == vars[1..] && Without(vals, 0) == vals[1..];
  }

  // ---------------------------------------------------------------- the tests on offsets

  datatype Alias = NoAlias | MayAlias | PartialAlias | MustAlias

  ghost predicate Scaled(vars: seq<VarIndex>) {
    forall i :: 0 <= i < |vars| ==> vars[i].scale != 0 && IsSigned(vars[i].scale)
  }

  function OrAll(vars: seq<VarIndex>): (r: nat) {
    if vars == [] then 0 else BitOr(OrAll(vars[..|vars| - 1]), Unsigned(vars[|vars| - 1].scale))
  }

  lemma {:induction false} OrAllPositive(vars: seq<VarIndex>)
    requires Scaled(vars)
    ensures OrAll(vars) < MODULUS && (vars != [] ==> OrAll(vars) > 0)
    decreases |vars|
  {
    hide BitOr, Pow2;
    Pow2Is64();
    if vars != [] {
      var init, s := vars[..|vars| - 1], vars[|vars| - 1].scale;
      OrAllPositive(init);
      OrBelow(OrAll(init), Unsigned(s), 64);
      OrIsPositive(OrAll(init), Unsigned(s));
    }
  }

  lemma {:induction false} OrAllRemainder(vars: seq<VarIndex>, k: nat)
    ensures OrAll(vars) % Pow2(k) == 0 <==> forall i :: 0 <= i < |vars| ==> Unsigned(vars[i].scale) % Pow2(k) == 0
    decreases |vars|
  {
    hide BitOr, Pow2, Unsigned;
    if vars != [] {
      var init, s := vars[..|vars| - 1], vars[|vars| - 1].scale;
      OrAllRemainder(init, k);
      OrRemainder(OrAll(init), Unsigned(s), k);
      assert forall i :: 0 <= i < |init| ==> init[i] == vars[i];
    } else {
      assert 0 % Pow2(k) == 0;
    }
  }

  /** The largest power of two that divides every scale. */
  function Modulus(vars: seq<VarIndex>): (m: int)
    ensures m > 0
  {
    if OrAll(vars) == 0 then 1 else LowestBit(OrAll(vars))
  }

  lemma ModulusIsLargest(vars: seq<VarIndex>) returns (k: nat)
    requires Scaled(vars) && vars != []
    ensures k < 64 && Modulus(vars) == Pow2(k)
    ensures forall i :: 0 <= i < |vars| ==> Unsigned(vars[i].scale) % Pow2(k) == 0
    ensures exists i :: 0 <= i < |vars| && Unsigned(vars[i].scale) % Pow2(k + 1) != 0
  {
    hide Unsigned, OrAll, Pow2;
    OrAllPositive(vars);
    k := LowestBitIsPower(OrAll(vars));
    OrAllRemainder(vars, k);
    OrAllRemainder(vars, k + 1);
    Pow2Is64();
    if k >= 64 {
      Pow2Grows(64, k);
    }
  }

  /** What the difference `offset` plus scaled variables of two addresses says about accesses of these sizes. */
  function Decide(offset: int, vars: seq<VarIndex>, size1: Word, size2: Word): Alias {
    if vars == [] then
      if offset == 0 then MustAlias
      else if offset > 0 && size2 != UNKNOWN_SIZE then (if offset < size2 then PartialAlias else NoAlias)
      else if offset < 0 && size1 != UNKNOWN_SIZE && size2 != UNKNOWN_SIZE then
        (if -offset < size1 then PartialAlias else NoAlias)
      else PartialAlias
    else
      var modOffset := offset % Modulus(vars);
      var known := size1 != UNKNOWN_SIZE && size2 != UNKNOWN_SIZE;
      if known && modOffset >= size2 && size1 <= Modulus(vars) - modOffset then NoAlias else PartialAlias
  }

  lemma ModOffset(offset: int, k: nat)
    requires k < 64
    ensures BitAnd(Unsigned(offset), Pow2(k) - 1) == offset % Pow2(k)
  {
    hide Pow2;
    var p := Pow2(k);
    MaskIsRemainder(Unsigned(offset), k);
    Pow2Adds(k, 64 - k);
    Pow2Is64();
    SignedCong(offset);
    CongDown(MODULUS, p, Pow2(64 - k), Unsigned(offset), offset);
    CongMod(p, Unsigned(offset));
    CongMod(p, offset);
    CongTrans(p, Unsigned(offset) % p, Unsigned(offset), offset);
    CongTrans(p, Unsigned(offset) % p, offset, offset % p);
    CongClose(p, Unsigned(offset) % p, offset % p);
  }

  lemma Negated(offset: int)
    requires IsSigned(offset)
    ensures if offset >= 0 then Unsigned(offset) == offset else Unsigned(0 - Unsigned(offset)) == -offset
  {
  }

  lemma OrAllNext(vars: seq<VarIndex>, i: nat)
    requires i < |vars|
    ensures OrAll(vars[..i + 1]) == BitOr(OrAll(vars[..i]), Unsigned(vars[i].scale))
  {
    assert vars[..i + 1][..i] == vars[..i];
  }

  lemma OrAllNone()
    ensures OrAll([]) == 0
  {
  }

  method CompareOffsets(offset: int, vars: seq<VarIndex>, size1: Word, size2: Word) returns (r: Alias)
    requires IsSigned(offset) && Scaled(vars)
    ensures r == Decide(offset, vars, size1, size2)
  {
    hide BitOr, BitAnd, BitXor, LowestBit, Pow2, Unsigned, OrAll;
    if offset == 0 && vars == [] {
      return MustAlias;
    }
    if offset != 0 && vars == [] {
      if offset >= 0 {
        if size2 != UNKNOWN_SIZE {
          Negated(offset);
          if Unsigned(offset) < size2 {
            return PartialAlias;
          }
          return NoAlias;
        }
      } else {
        if size1 != UNKNOWN_SIZE && size2 != UNKNOWN_SIZE {
          Negated(offset);
          if Unsigned(0 - Unsigned(offset)) < size1 {
            return PartialAlias;
          }
          return NoAlias;
        }
      }
    }
    if vars != [] {
      var modulo := 0;
      var i := 0;
      OrAllNone();
      while i < |vars|
        invariant 0 <= i <= |vars| && modulo == OrAll(vars[..i])
      {
        OrAllNext(vars, i);
        modulo := BitOr(modulo, Unsigned(vars[i].scale));
        i := i + 1;
      }
      assert vars[..i] == vars;
      OrAllPositive(vars);
      IsolatesLowestBit(modulo);
      modulo := BitXor(modulo, BitAnd(modulo, modulo - 1));
      ghost var k := ModulusIsLargest(vars);
      var modOffset := BitAnd(Unsigned(offset), modulo - 1);
      ModOffset(offset, k);
      if size1 != UNKNOWN_SIZE && size2 != UNKNOWN_SIZE && modOffset >= size2 && size1 <= modulo - modOffset {
        return NoAlias;
      }
    }
    return PartialAlias;
  }

  // ---------------------------------------------------------------- what the answers mean

  /** Is byte i from one address byte j from the other? */
  ghost predicate Meets(a1: int, i: int, a2: int, j: int) {
    Cong(MODULUS, a1 + i, a2 + j)
  }

  /** No byte of n1 bytes at a1 is one of n2 bytes at a2. */
  ghost predicate Disjoint(a1: int, n1: int, a2: int, n2: int) {
    forall i, j {:trigger Meets(a1, i, a2, j)} :: 0 <= i < n1 && 0 <= j < n2 ==> !Meets(a1, i, a2, j)
  }

  /** The bytes accessed: at most `size` if that is known, and within an object of less than 2^63 bytes. */
  ghost predicate Extent(n: int, size: Word) {
    0 <= n < HALF && (size != UNKNOWN_SIZE ==> n <= size)
  }

  lemma {:induction false} SumDivisible(vars: seq<VarIndex>, vals: seq<int>, k: nat)
    requires |vals| == |vars| && k <= 64 && forall i :: 0 <= i < |vars| ==> Unsigned(vars[i].scale) % Pow2(k) == 0
    ensures Cong(Pow2(k), SumScaled(vars, vals), 0)
    decreases |vars|
  {
    hide Cong, Pow2, Unsigned;
    var p := Pow2(k);
    if vars == [] {
      CongSame(p, 0);
    } else {
      var n := |vars| - 1;
      var s, y := vars[n].scale, vals[n];
      SumDivisible(vars[..n], vals[..n], k);
      Pow2Adds(k, 64 - k);
      Pow2Is64();
      SignedCong(s);
      CongDown(MODULUS, p, Pow2(64 - k), Unsigned(s), s);
      CongMod(p, Unsigned(s));
      CongSym(p, Unsigned(s), s);
      CongTrans(p, s, Unsigned(s), 0);
      CongMul(p, s, 0, y);
      CongAdd(p, SumScaled(vars[..n], vals[..n]), 0, s * y, 0 * y);
    }
  }

  /** The modulus test: the addresses differ by `offset`, modulo the modulus. */
  lemma ModulusSound(offset: int, vars: seq<VarIndex>, vals: seq<int>, size1: Word, size2: Word, a1: int, a2: int,
                     n1: int, n2: int)
    requires Scaled(vars) && vars != [] && |vals| == |vars| && Cong(MODULUS, a1 - a2, offset + SumScaled(vars, vals))
    requires Decide(offset, vars, size1, size2) == NoAlias && n1 <= size1 && n2 <= size2
    ensures Disjoint(a1, n1, a2, n2)
  {
    hide Cong, Pow2, SumScaled, Scaled;
    var k := ModulusIsLargest(vars);
    var p := Pow2(k);
    SumDivisible(vars, vals, k);
    Pow2Adds(k, 64 - k);
    Pow2Is64();
    CongDown(MODULUS, p, Pow2(64 - k), a1 - a2, offset + SumScaled(vars, vals));
    CongMod(p, offset);
    CongAdd(p, offset, offset % p, SumScaled(vars, vals), 0);
    CongTrans(p, a1 - a2, offset + SumScaled(vars, vals), offset % p);
    forall i, j | 0 <= i < n1 && 0 <= j < n2
      ensures !Meets(a1, i, a2, j)
    {
      NotMeeting(p, Pow2(64 - k), a1, i, a2, j, offset % p);
    }
  }

  lemma NotMeeting(p: int, k: int, a1: int, i: int, a2: int, j: int, d: int)
    requires p > 0 && MODULUS == p * k && Cong(p, a1 - a2, d) && 0 < d + i - j < p
    ensures !Meets(a1, i, a2, j)
  {
    hide Cong;
    if Meets(a1, i, a2, j) {
      CongDown(MODULUS, p, k, a1 + i, a2 + j);
      CongSame(p, a2 + j);
      CongAdd(p, a1 + i, a2 + j, a2 + j, a2 + j);
      CongSame(p, i - j);
      CongAdd(p, a1 - a2, d, i - j, i - j);
      CongSym(p, a1 - a2 + (i - j), d + (i - j));
      CongTrans(p, d + (i - j), a1 - a2 + (i - j), 0);
      CongClose(p, d + (i - j), 0);
    }
  }

  /** A constant difference. */
  lemma ConstantSound(offset: int, size1: Word, size2: Word, a1: int, a2: int, n1: int, n2: int)
    requires IsSigned(offset) && Cong(MODULUS, a1 - a2, offset) && Extent(n1, size1) && Extent(n2, size2)
    requires Decide(offset, [], size1, size2) == NoAlias
    ensures Disjoint(a1, n1, a2, n2)
  {
    hide Cong;
    forall i, j | 0 <= i < n1 && 0 <= j < n2
      ensures !Meets(a1, i, a2, j)
    {
      if offset > 0 {
        NotMeeting(MODULUS, 1, a1, i, a2, j, offset);
      } else {
        CongBy(MODULUS, offset, offset + MODULUS, -1);
        CongTrans(MODULUS, a1 - a2, offset, offset + MODULUS);
        NotMeeting(MODULUS, 1, a1, i, a2, j, offset + MODULUS);
      }
    }
  }

  /** Answers about a difference of addresses hold for all values of the variables. */
  lemma DecideSound(offset: int, vars: seq<VarIndex>, vals: seq<int>, size1: Word, size2: Word, a1: int, a2: int)
    requires IsSigned(offset) && Scaled(vars) && |vals| == |vars|
             && Cong(MODULUS, a1 - a2, offset + SumScaled(vars, vals))
    ensures Decide(offset, vars, size1, size2) == MustAlias ==> Cong(MODULUS, a1, a2)
    ensures Decide(offset, vars, size1, size2) == NoAlias ==>
              forall n1, n2 :: Extent(n1, size1) && Extent(n2, size2) ==> Disjoint(a1, n1, a2, n2)
  {
    hide Cong, Disjoint;
    if Decide(offset, vars, size1, size2) == MustAlias {
      CongSame(MODULUS, a2);
      CongAdd(MODULUS, a1 - a2, 0, a2, a2);
    }
    if Decide(offset, vars, size1, size2) == NoAlias {
      forall n1, n2 | Extent(n1, size1) && Extent(n2, size2)
        ensures Disjoint(a1, n1, a2, n2)
      {
        if vars == [] {
          ConstantSound(offset, size1, size2, a1, a2, n1, n2);
        } else {
          ModulusSound(offset, vars, vals, size1, size2, a1, a2, n1, n2);
        }
      }
    }
  }

  /** With a constant difference and known sizes the answer is exact: the accesses do overlap. */
  lemma PartialOverlaps(offset: int, size1: Word, size2: Word, a1: int, a2: int)
    requires IsSigned(offset) && Cong(MODULUS, a1 - a2, offset) && Decide(offset, [], size1, size2) == PartialAlias
    requires 0 < size1 != UNKNOWN_SIZE && 0 < size2 != UNKNOWN_SIZE
    ensures !Disjoint(a1, size1, a2, size2)
  {
    hide Cong;
    CongSame(MODULUS, a2);
    CongAdd(MODULUS, a1 - a2, offset, a2, a2);
    if offset > 0 {
      assert Meets(a1, 0, a2, offset);
    } else {
      CongSame(MODULUS, -offset);
      CongAdd(MODULUS, a1, a2 + offset, -offset, -offset);
      assert Meets(a1, -offset, a2, 0);
    }
  }

  // ---------------------------------------------------------------- aliasGEP

  /** What the answers about two pointers mean for accesses of these sizes. */
  ghost predicate AnswerHolds(r: Alias, a1: int, size1: Word, a2: int, size2: Word) {
    && (r == MustAlias ==> Cong(MODULUS, a1, a2))
    && (r == NoAlias ==> forall n1, n2 {:trigger Disjoint(a1, n1, a2, n2)} ::
         Extent(n1, size1) && Extent(n2, size2) ==> Disjoint(a1, n1, a2, n2))
  }

  ghost predicate IsByteOf(a: int, i: int, bytes: iset<Word>) {
    Unsigned(a + i) in bytes
  }

  /** All of n bytes at a belong to the object. */
  ghost predicate Within(a: int, n: int, bytes: iset<Word>) {
    forall i {:trigger IsByteOf(a, i, bytes)} :: 0 <= i < n ==> IsByteOf(a, i, bytes)
  }

  /** The same for accesses that stay within the two objects that the pointers are based on. */
  ghost predicate AnswerHoldsWithin(r: Alias, a1: int, size1: Word, o1: iset<Word>, a2: int, size2: Word,
                                    o2: iset<Word>) {
    && (r == MustAlias ==> Cong(MODULUS, a1, a2))
    && (r == NoAlias ==> forall n1, n2 {:trigger Disjoint(a1, n1, a2, n2)} ::
         Extent(n1, size1) && Extent(n2, size2) && Within(a1, n1, o1) && Within(a2, n2, o2) ==>
           Disjoint(a1, n1, a2, n2))
  }

  /** The facts hold for the variables of the two pointers. */
  ghost predicate Related(facts: Facts, env1: Env, env2: Env) {
    && MaskedHolds(facts, env1.vals) && MaskedHolds(facts, env2.vals)
    && forall v {:trigger facts.same(v)} :: facts.same(v) ==> Eval(v, env1.vals) == Eval(v, env2.vals)
  }

  /** The facts hold, and the bases relate as the queries about them say: MustAlias means one address, NoAlias
      that the objects have no byte in common (if the sizes of the accesses were given: that the accesses at
      the bases have none), and the other answers mean nothing. */
  ghost predicate Possible(facts: Facts, b1: Ptr, size1: Word, o1: iset<Word>, b2: Ptr, size2: Word, o2: iset<Word>,
                           baseAlias: Alias, precise: Alias, env1: Env, env2: Env) {
    && Related(facts, env1, env2)
    && (baseAlias == MustAlias ==> Cong(MODULUS, Address(b1, env1), Address(b2, env2)))
    && (baseAlias == NoAlias ==> o1 !! o2)
    && (precise == NoAlias ==> AnswerHolds(NoAlias, Address(b1, env1), size1, Address(b2, env2), size2))
  }

  ghost predicate AllSame(facts: Facts, vars: seq<VarIndex>) {
    forall i :: 0 <= i < |vars| ==> facts.same(vars[i].v)
  }

  /** Two getelementptr whose chains could be followed to the end, with one offset from bases that may alias
      but do not if the sizes are taken into account. */
  predicate IdenticalOffsets(facts: Facts, gep1: Ptr, size1: Word, v2: Ptr, size2: Word, baseAlias: Alias,
                             precise: Alias) {
    && v2.Gep? && baseAlias == MayAlias && precise == NoAlias && size1 == size2
    && var d1, d2 := DecomposeGEP(facts, gep1), DecomposeGEP(facts, v2);
       !d1.maxLookupReached && !d2.maxLookupReached && d1.form == d2.form
  }

  /** The answer for a getelementptr and another pointer. */
  function AliasGepAnswer(facts: Facts, gep1: Ptr, size1: Word, v2: Ptr, size2: Word, baseAlias: Alias,
                          precise: Alias): Alias {
    var d1 := DecomposeGEP(facts, gep1);
    var d2 := if v2.Gep? then DecomposeGEP(facts, v2) else Decomposed(v2, Form(0, []), false);
    var deep := d1.maxLookupReached || d2.maxLookupReached;
    if v2.Gep? then
      if baseAlias == MayAlias && size1 == size2 && precise == NoAlias && deep then MayAlias
      else if baseAlias == MayAlias && size1 == size2 && precise == NoAlias && d1.form == d2.form then NoAlias
      else if baseAlias != MustAlias then baseAlias
      else if d1.maxLookupReached || d2.maxLookupReached then MayAlias
      else Decide(Signed(d1.form.offset - d2.form.offset), SubtractAll(facts, d1.form.vars, d2.form.vars), size1, size2)
    else if size1 == UNKNOWN_SIZE && size2 == UNKNOWN_SIZE then MayAlias
    else if baseAlias != MustAlias then baseAlias
    else if d1.maxLookupReached then MayAlias
    else Decide(d1.form.offset, d1.form.vars, size1, size2)
  }

  /** `baseAlias` is the answer for the underlying objects with unknown sizes (or, if v2 is no
      getelementptr, for the object of gep1 and v2), `precise` the one with the sizes of the accesses. */
  method AliasGEP(facts: Facts, gep1: Ptr, size1: Word, v2: Ptr, size2: Word, baseAlias: Alias, precise: Alias)
    returns (r: Alias)
    ensures r == AliasGepAnswer(facts, gep1, size1, v2, size2, baseAlias, precise)
    ensures !v2.Gep? && size1 == UNKNOWN_SIZE && size2 == UNKNOWN_SIZE ==> r == MayAlias
    ensures baseAlias != MustAlias && (v2.Gep? || size1 != UNKNOWN_SIZE || size2 != UNKNOWN_SIZE) ==>
              r == if IdenticalOffsets(facts, gep1, size1, v2, size2, baseAlias, precise) then NoAlias else baseAlias
    ensures baseAlias == MustAlias ==>
              (DecomposeGEP(facts, gep1).maxLookupReached || (v2.Gep? && DecomposeGEP(facts, v2).maxLookupReached) ==>
                 r == MayAlias)
  {
    hide Cong, Signed, Decide, Decompose, SubtractAll;
    var base1, form1, max1 := DecomposeGEPExpression(facts, gep1);
    if v2.Gep? {
      var base2, form2, max2 := DecomposeGEPExpression(facts, v2);
      if baseAlias == MayAlias && size1 == size2 {
        if precise == NoAlias {
          if max2 || max1 {
            return MayAlias;
          }
          if form1.offset == form2.offset && form1.vars == form2.vars {
            return NoAlias;
          }
        }
      }
      if baseAlias != MustAlias {
        return baseAlias;
      }
      if max2 || max1 {
        return MayAlias;
      }
      DifferenceScaled(facts, form1.vars, form2.vars);
      var vars := GetIndexDifference(facts, form1.vars, form2.vars);
      SignedCong(form1.offset - form2.offset);
      r := CompareOffsets(Signed(form1.offset - form2.offset), vars, size1, size2);
    } else {
      if size1 == UNKNOWN_SIZE && size2 == UNKNOWN_SIZE {
        return MayAlias;
      }
      if baseAlias != MustAlias {
        return baseAlias;
      }
      if max1 {
        return MayAlias;
      }
      r := CompareOffsets(form1.offset, form1.vars, size1, size2);
    }
  }

  lemma {:induction false} DifferenceScaled(facts: Facts, dest: seq<VarIndex>, src: seq<VarIndex>)
    requires Scaled(dest) && Scaled(src)
    ensures Scaled(SubtractAll(facts, dest, src))
    decreases |src|
  {
    if src != [] {
      SubtractScaled(facts, dest, src[0]);
      DifferenceScaled(facts, Subtract(facts, dest, src[0]), src[1..]);
    }
  }

  lemma SubtractScaled(facts: Facts, dest: seq<VarIndex>, s: VarIndex)
    requires Scaled(dest) && s.scale != 0 && IsSigned(s.scale)
    ensures Scaled(Subtract(facts, dest, s))
  {
    hide SameValue;
  }

  /** The address of a pointer that has been taken apart. */
  lemma AddressExact(facts: Facts, p: Ptr, env: Env)
    requires SafePtr(facts, p) && MaskedHolds(facts, env.vals)
    ensures var d := DecomposeGEP(facts, p);
            && Cong(MODULUS, Address(p, env), Address(d.base, env) + Value(d.form, env.vals))
            && Reduced(d.form.vars) && Scaled(d.form.vars) && IsSigned(d.form.offset)
  {
    hide Cong, Decompose, Address;
    NoVars();
    DecomposeExact(facts, p, Form(0, []), MAX_LOOKUP, env);
    DecomposeReduced(facts, p, Form(0, []), MAX_LOOKUP);
    assert Value(Form(0, []), env.vals) == 0;
  }

  lemma FormsAgree(facts: Facts, env1: Env, env2: Env, vars1: seq<VarIndex>, vars2: seq<VarIndex>)
    requires Related(facts, env1, env2)
    ensures Agree(facts, vars1, EvalAll(vars1, env1.vals), vars2, EvalAll(vars2, env2.vals))
  {
    hide Cong, Address, Eval, MaskedHolds;
  }

  /** Two chains of getelementptr over one base. */
  lemma TwoGepsSound(facts: Facts, d1: Decomposed, d2: Decomposed, size1: Word, size2: Word, env1: Env, env2: Env,
                     a1: int, a2: int)
    requires Related(facts, env1, env2) && Cong(MODULUS, Address(d1.base, env1), Address(d2.base, env2))
    requires Cong(MODULUS, a1, Address(d1.base, env1) + Value(d1.form, env1.vals)) && Scaled(d1.form.vars)
    requires Cong(MODULUS, a2, Address(d2.base, env2) + Value(d2.form, env2.vals)) && Scaled(d2.form.vars)
             && Reduced(d2.form.vars)
    ensures AnswerHolds(Decide(Signed(d1.form.offset - d2.form.offset), SubtractAll(facts, d1.form.vars, d2.form.vars),
              size1, size2),
                        a1, size1, a2, size2)
  {
    hide Cong, Address, Decide, SubtractAll, Scaled, Reduced, SumScaled, Disjoint, Extent, Agree, EvalAll, Signed,
         MaskedHolds;
    var vals1, vals2 := EvalAll(d1.form.vars, env1.vals), EvalAll(d2.form.vars, env2.vals);
    FormsAgree(facts, env1, env2, d1.form.vars, d2.form.vars);
    var vals := DifferenceExact(facts, d1.form.vars, vals1, d2.form.vars, vals2);
    DifferenceScaled(facts, d1.form.vars, d2.form.vars);
    SignedCong(d1.form.offset - d2.form.offset);
    var vars := SubtractAll(facts, d1.form.vars, d2.form.vars);
    Difference(a1, a2, Address(d1.base, env1), Address(d2.base, env2), d1.form.offset, d2.form.offset,
               SumScaled(d1.form.vars, vals1), SumScaled(d2.form.vars, vals2), SumScaled(vars, vals));
    DecideSound(Signed(d1.form.offset - d2.form.offset), vars, vals, size1, size2, a1, a2);
  }

  /** A getelementptr against the pointer that is its base. */
  lemma OneGepSound(form: Form, size1: Word, size2: Word, vals: Vals, b1: int, a1: int, a2: int)
    requires Cong(MODULUS, b1, a2) && Cong(MODULUS, a1, b1 + Value(form, vals)) && Scaled(form.vars)
             && IsSigned(form.offset)
    ensures AnswerHolds(Decide(form.offset, form.vars, size1, size2), a1, size1, a2, size2)
  {
    hide Cong, Decide, Scaled, SumScaled, Disjoint, Extent, EvalAll;
    var x := Value(form, vals);
    CongSame(MODULUS, x);
    CongAdd(MODULUS, b1, a2, x, x);
    CongTrans(MODULUS, a1, b1 + x, a2 + x);
    CongSame(MODULUS, a2);
    CongAdd(MODULUS, a1, a2 + x, a2, a2);
    DecideSound(form.offset, form.vars, EvalAll(form.vars, vals), size1, size2, a1, a2);
  }

  lemma RelatedParts(facts: Facts, env1: Env, env2: Env)
    requires Related(facts, env1, env2)
    ensures MaskedHolds(facts, env1.vals) && MaskedHolds(facts, env2.vals)
  {
    hide MaskedHolds;
  }

  // ---------------------------------------------------------------- identical offsets from different bases

  /** Right if every variable is known to be the same in both pointers. */
  lemma SameOffsetsSound(facts: Facts, gep1: Ptr, gep2: Ptr, size: Word, env1: Env, env2: Env, n1: int, n2: int)
    requires gep1.Gep? && gep2.Gep? && AliasGepAnswer(facts, gep1, size, gep2, size, MayAlias, NoAlias) == NoAlias
    requires SafePtr(facts, gep1) && SafePtr(facts, gep2)
    requires Related(facts, env1, env2) && AllSame(facts, DecomposeGEP(facts, gep1).form.vars)
    requires Disjoint(Address(DecomposeGEP(facts, gep1).base, env1), n1, Address(DecomposeGEP(facts, gep2).base, env2),
               n2)
    ensures Disjoint(Address(gep1, env1), n1, Address(gep2, env2), n2)
  {
    hide Cong, Address, DecomposeGEP, MaskedHolds, Eval, SumScaled;
    var d1, d2 := DecomposeGEP(facts, gep1), DecomposeGEP(facts, gep2);
    AddressExact(facts, gep1, env1);
    AddressExact(facts, gep2, env2);
    assert EvalAll(d1.form.vars, env1.vals) == EvalAll(d2.form.vars, env2.vals);
    var x := Value(d1.form, env1.vals);
    var a1, a2, b1, b2 := Address(gep1, env1), Address(gep2, env2), Address(d1.base, env1), Address(d2.base, env2);
    forall i, j | 0 <= i < n1 && 0 <= j < n2
      ensures !Meets(a1, i, a2, j)
    {
      if Meets(a1, i, a2, j) {
        Shifted(a1, b1, a2, b2, x, i, j);
      }
    }
  }

  // ---------------------------------------------------------------- any base

  lemma MayHolds(a1: int, size1: Word, o1: iset<Word>, a2: int, size2: Word, o2: iset<Word>)
    ensures AnswerHoldsWithin(MayAlias, a1, size1, o1, a2, size2, o2)
    ensures AnswerHoldsWithin(PartialAlias, a1, size1, o1, a2, size2, o2)
  {
  }

  lemma HoldsAnywhere(r: Alias, a1: int, size1: Word, o1: iset<Word>, a2: int, size2: Word, o2: iset<Word>)
    requires AnswerHolds(r, a1, size1, a2, size2)
    ensures AnswerHoldsWithin(r, a1, size1, o1, a2, size2, o2)
  {
    hide Disjoint, Extent, Within, Cong;
  }

  lemma SameByte(a1: int, i: int, a2: int, j: int)
    requires Meets(a1, i, a2, j)
    ensures Unsigned(a1 + i) == Unsigned(a2 + j)
  {
    hide Cong;
    SignedCong(a1 + i);
    SignedCong(a2 + j);
    CongTrans(MODULUS, Unsigned(a1 + i), a1 + i, a2 + j);
    CongSym(MODULUS, Unsigned(a2 + j), a2 + j);
    CongTrans(MODULUS, Unsigned(a1 + i), a2 + j, Unsigned(a2 + j));
    CongClose(MODULUS, Unsigned(a1 + i), Unsigned(a2 + j));
  }

  /** Accesses within objects that have no byte in common. */
  lemma ApartHolds(a1: int, size1: Word, o1: iset<Word>, a2: int, size2: Word, o2: iset<Word>)
    requires o1 !! o2
    ensures AnswerHoldsWithin(NoAlias, a1, size1, o1, a2, size2, o2)
  {
    hide Extent, Meets;
    forall n1, n2 | Within(a1, n1, o1) && Within(a2, n2, o2)
      ensures Disjoint(a1, n1, a2, n2)
    {
      forall i, j | 0 <= i < n1 && 0 <= j < n2
        ensures !Meets(a1, i, a2, j)
      {
        assert IsByteOf(a1, i, o1) && IsByteOf(a2, j, o2);
        if Meets(a1, i, a2, j) {
          SameByte(a1, i, a2, j);
        }
      }
    }
  }

  /** One base: the answer is that about the difference. */
  lemma OneBaseSound(facts: Facts, gep1: Ptr, size1: Word, v2: Ptr, size2: Word, precise: Alias, env1: Env, env2: Env)
    requires SafePtr(facts, gep1) && (v2.Gep? ==> SafePtr(facts, v2)) && Related(facts, env1, env2)
    requires var b2 := if v2.Gep? then DecomposeGEP(facts, v2).base else v2;
             Cong(MODULUS, Address(DecomposeGEP(facts, gep1).base, env1), Address(b2, env2))
    ensures AnswerHolds(AliasGepAnswer(facts, gep1, size1, v2, size2, MustAlias, precise),
                        Address(gep1, env1), size1, Address(v2, env2), size2)
  {
    hide Cong, Address, Decide, DecomposeGEP, SubtractAll, Scaled, Reduced, Value, Signed, MaskedHolds, Related,
         Disjoint, Extent, SafePtr;
    RelatedParts(facts, env1, env2);
    var d1 := DecomposeGEP(facts, gep1);
    AddressExact(facts, gep1, env1);
    if v2.Gep? {
      AddressExact(facts, v2, env2);
      TwoGepsSound(facts, d1, DecomposeGEP(facts, v2), size1, size2, env1, env2, Address(gep1, env1),
        Address(v2, env2));
    } else {
      OneGepSound(d1.form, size1, size2, env1.vals, Address(d1.base, env1), Address(gep1, env1), Address(v2, env2));
    }
  }

  /** Identical offsets, known to be the same in both pointers. */
  lemma IdenticalSound(facts: Facts, gep1: Ptr, size: Word, gep2: Ptr, env1: Env, env2: Env, o1: iset<Word>,
                       o2: iset<Word>)
    requires gep1.Gep? && gep2.Gep? && AliasGepAnswer(facts, gep1, size, gep2, size, MayAlias, NoAlias) == NoAlias
    requires SafePtr(facts, gep1) && SafePtr(facts, gep2)
    requires Related(facts, env1, env2) && AllSame(facts, DecomposeGEP(facts, gep1).form.vars)
    requires AnswerHolds(NoAlias, Address(DecomposeGEP(facts, gep1).base, env1), size,
               Address(DecomposeGEP(facts, gep2).base, env2), size)
    ensures AnswerHoldsWithin(NoAlias, Address(gep1, env1), size, o1, Address(gep2, env2), size, o2)
  {
    hide Cong, Address, AliasGepAnswer, DecomposeGEP, Disjoint, Extent, SafePtr, Related, AllSame, Within;
    var b1, b2 := Address(DecomposeGEP(facts, gep1).base, env1), Address(DecomposeGEP(facts, gep2).base, env2);
    forall n1, n2 | Extent(n1, size) && Extent(n2, size)
      ensures Disjoint(Address(gep1, env1), n1, Address(gep2, env2), n2)
    {
      assert Disjoint(b1, n1, b2, n2);
      SameOffsetsSound(facts, gep1, gep2, size, env1, env2, n1, n2);
    }
  }

  /** Whatever is known about the bases: "must alias" means one address, and "no alias" that accesses within
      the two objects have no byte in common, for all values of the variables; for identical offsets if the
      variables are known to be the same in both pointers. */
  lemma AliasGepSound(facts: Facts, gep1: Ptr, size1: Word, v2: Ptr, size2: Word, baseAlias: Alias, precise: Alias,
                      env1: Env, env2: Env, o1: iset<Word>, o2: iset<Word>)
    requires gep1.Gep? && SafePtr(facts, gep1) && (v2.Gep? ==> SafePtr(facts, v2))
    requires var b2 := if v2.Gep? then DecomposeGEP(facts, v2).base else v2;
             Possible(facts, DecomposeGEP(facts, gep1).base, size1, o1, b2, size2, o2, baseAlias, precise, env1, env2)
    requires IdenticalOffsets(facts, gep1, size1, v2, size2, baseAlias, precise) ==>
               AllSame(facts, DecomposeGEP(facts, gep1).form.vars)
    ensures AnswerHoldsWithin(AliasGepAnswer(facts, gep1, size1, v2, size2, baseAlias, precise),
                              Address(gep1, env1), size1, o1, Address(v2, env2), size2, o2)
  {
    hide Cong, Address, Decide, DecomposeGEP, SubtractAll, Signed, Related, AnswerHolds, AnswerHoldsWithin, AllSame,
         SafePtr;
    var a1, a2 := Address(gep1, env1), Address(v2, env2);
    MayHolds(a1, size1, o1, a2, size2, o2);
    if IdenticalOffsets(facts, gep1, size1, v2, size2, baseAlias, precise) {
      IdenticalSound(facts, gep1, size1, v2, env1, env2, o1, o2);
    } else if baseAlias == NoAlias {
      ApartHolds(a1, size1, o1, a2, size2, o2);
    } else if baseAlias == MustAlias {
      OneBaseSound(facts, gep1, size1, v2, size2, precise, env1, env2);
      HoldsAnywhere(AliasGepAnswer(facts, gep1, size1, v2, size2, MustAlias, precise), a1, size1, o1, a2, size2, o2);
    }
  }

  // ---------------------------------------------------------------- when identical offsets are right

  /** The variable that an expression is computed from. */
  function Root(e: Expr): Expr {
    if e.Opaque? then e else Root(e.of)
  }

  /** Nothing is known about bits, and a value known to be the same is computed from one that is. */
  ghost predicate PlainFacts(facts: Facts) {
    && (forall e: Expr, w: nat, k: Word {:trigger facts.masked(e, w, k)} :: !facts.masked(e, w, k))
    && forall e {:trigger facts.same(e)} :: facts.same(e) ==> facts.same(Root(e))
  }

  /** The access of the first pointer never meets that of the second while the objects do not meet. */
  ghost predicate NeverMeet(facts: Facts, gep1: Ptr, base1: Ptr, gep2: Ptr, base2: Ptr, size: Word) {
    forall env1, env2 {:trigger Related(facts, env1, env2)} ::
      Related(facts, env1, env2) && Disjoint(Address(base1, env1), size, Address(base2, env2), size) ==>
        Disjoint(Address(gep1, env1), size, Address(gep2, env2), size)
  }

  /** Two different objects, identical offsets in plain variables: "no alias" is right for all values exactly
      if every variable is known to be the same in both pointers. */
  lemma SameOffsetsIff(facts: Facts, gep1: Ptr, gep2: Ptr, size: Word)
    requires gep1.Gep? && gep2.Gep? && AliasGepAnswer(facts, gep1, size, gep2, size, MayAlias, NoAlias) == NoAlias
    requires 0 < size < HALF && PlainFacts(facts) && SafePtr(facts, gep1) && SafePtr(facts, gep2)
    requires var d1, d2 := DecomposeGEP(facts, gep1), DecomposeGEP(facts, gep2);
             && d1.base.Object? && d2.base.Object? && d1.base != d2.base
             && forall i :: 0 <= i < |d1.form.vars| ==> d1.form.vars[i].v.Opaque?
    ensures var d1, d2 := DecomposeGEP(facts, gep1), DecomposeGEP(facts, gep2);
            NeverMeet(facts, gep1, d1.base, gep2, d2.base, size) <==> AllSame(facts, d1.form.vars)
  {
    hide Decompose, AliasGepAnswer, Disjoint, Address, Eval, Related, DecomposeGEP;
    var d1, d2 := DecomposeGEP(facts, gep1), DecomposeGEP(facts, gep2);
    if AllSame(facts, d1.form.vars) {
      forall env1, env2 | Related(facts, env1, env2) && Disjoint(Address(d1.base, env1), size, Address(d2.base, env2),
        size)
        ensures Disjoint(Address(gep1, env1), size, Address(gep2, env2), size)
      {
        SameOffsetsSound(facts, gep1, gep2, size, env1, env2, size, size);
      }
    } else {
      var i :| 0 <= i < |d1.form.vars| && !facts.same(d1.form.vars[i].v);
      var env1, env2 := OffsetsCanMeet(facts, gep1, gep2, size, i);
    }
  }

  lemma SameForms(facts: Facts, gep1: Ptr, gep2: Ptr, size: Word)
    requires gep1.Gep? && gep2.Gep? && AliasGepAnswer(facts, gep1, size, gep2, size, MayAlias, NoAlias) == NoAlias
    ensures DecomposeGEP(facts, gep1).form == DecomposeGEP(facts, gep2).form
  {
    hide DecomposeGEP;
  }

  /** A shift of one variable that moves the pointer by half the address space. */
  lemma HalfShift(s: int) returns (delta: Word)
    requires s != 0 && IsSigned(s)
    ensures Cong(MODULUS, s * delta, HALF)
  {
    hide Pow2, Unsigned, Cong;
    var vars := [VarIndex(Opaque(0), s)];
    var k := ModulusIsLargest(vars);
    var u := Unsigned(vars[0].scale);
    Pow2Is64();
    Pow2Adds(k, 63 - k);
    Pow2Adds(63 - k, 1 + k);
    Pow2Grows(63 - k, 63);
    delta := Pow2(63 - k);
    var p := Pow2(k);
    var q := u / p;
    assert u == p * q;
    assert Pow2(k + 1) == 2 * p by { Pow2Adds(1, k); PowerOne(); }
    OddQuotient(u, p, q);
    Swap(p, q, delta);
    HalfOdd(q);
    CongBy(MODULUS, u * delta, HALF, q / 2);
    SignedCong(s);
    CongMul(MODULUS, u, s, delta);
    CongSym(MODULUS, u * delta, s * delta);
    CongTrans(MODULUS, s * delta, u * delta, HALF);
  }

  lemma HalfOdd(q: int)
    requires q % 2 == 1
    ensures HALF * q == MODULUS * (q / 2) + HALF
  {
  }

  lemma PowerOne()
    ensures Pow2(1) == 2
  {
  }

  lemma OddQuotient(u: int, p: int, q: int)
    requires p > 0 && u == p * q && u % (2 * p) != 0
    ensures q % 2 == 1
  {
    if q % 2 == 0 {
      assert u == (q / 2) * (2 * p) + 0;
      ModIs(u, 2 * p, q / 2, 0);
    }
  }

  lemma {:induction false} SumOfZeros(vars: seq<VarIndex>, vals: seq<int>)
    requires |vals| == |vars| && forall i :: 0 <= i < |vals| ==> vals[i] == 0
    ensures SumScaled(vars, vals) == 0
    decreases |vars|
  {
    if vars != [] {
      SumOfZeros(vars[..|vars| - 1], vals[..|vars| - 1]);
    }
  }

  /** With all other variables zero the sum is what one variable adds. */
  lemma SumOfOne(vars: seq<VarIndex>, vals: seq<int>, i: nat)
    requires |vals| == |vars| && i < |vars| && forall j :: 0 <= j < |vals| && j != i ==> vals[j] == 0
    ensures SumScaled(vars, vals) == vars[i].scale * vals[i]
  {
    SumWithout(vars, vals, i);
    SumOfZeros(Without(vars, i), Without(vals, i));
  }

  lemma {:induction false} EvalRoot(e: Expr, w: nat, env1: Vals, env2: Vals)
    requires Root(e).Opaque? && Named(Root(e).id, env1) == Named(Root(e).id, env2)
    ensures EvalAt(e, w, env1) == EvalAt(e, w, env2)
    decreases e
  {
    match e
    case Opaque(_) =>
    case Binary(_, _, of, _) => EvalRoot(of, w, env1, env2);
    case Cast(_, _, width, of) => EvalRoot(of, width, env1, env2);
    case Wide(_, width, of) => EvalRoot(of, width, env1, env2);
  }

  function Named(id: int, env: Vals): int {
    if id in env then env[id] else 0
  }

  /** A variable that is not the same can make the accesses coincide although the objects are far apart. */
  lemma OffsetsCanMeet(facts: Facts, gep1: Ptr, gep2: Ptr, size: Word, i: nat) returns (env1: Env, env2: Env)
    requires gep1.Gep? && gep2.Gep? && AliasGepAnswer(facts, gep1, size, gep2, size, MayAlias, NoAlias) == NoAlias
    requires 0 < size < HALF && PlainFacts(facts) && SafePtr(facts, gep1) && SafePtr(facts, gep2)
    requires var d1, d2 := DecomposeGEP(facts, gep1), DecomposeGEP(facts, gep2);
             && d1.base.Object? && d2.base.Object? && d1.base != d2.base && i < |d1.form.vars|
             && (forall j :: 0 <= j < |d1.form.vars| ==> d1.form.vars[j].v.Opaque?) && !facts.same(d1.form.vars[i].v)
    ensures Related(facts, env1, env2)
    ensures Disjoint(Address(DecomposeGEP(facts, gep1).base, env1), size,
              Address(DecomposeGEP(facts, gep2).base, env2), size)
    ensures !Disjoint(Address(gep1, env1), size, Address(gep2, env2), size)
  {
    hide Decompose, AliasGepAnswer, Disjoint, Cong, DecomposeGEP, SumScaled, Scaled, SafePtr, Eval, PlainFacts, Related;
    hide MaskedHolds;
    var d1, d2 := DecomposeGEP(facts, gep1), DecomposeGEP(facts, gep2);
    SameForms(facts, gep1, gep2, size);
    var vars := d1.form.vars;
    NothingMasked(facts, map[]);
    AddressExact(facts, gep1, Env(map[], map[]));
    var delta := HalfShift(vars[i].scale);
    env1 := Env(map[d1.base.id := HALF], map[]);
    env2 := Env(map[d2.base.id := 0], map[vars[i].v.id := delta]);
    NothingMasked(facts, env1.vals);
    NothingMasked(facts, env2.vals);
    ShiftRelates(facts, env1, env2, vars[i].v.id);
    assert Address(d1.base, env1) == HALF && Address(d2.base, env2) == 0;
    HalvesDisjoint(size);
    AddressExact(facts, gep1, env1);
    AddressExact(facts, gep2, env2);
    OnlyOneShifted(vars, i, delta);
    SumOfZeros(vars, EvalAll(vars, env1.vals));
    SumOfOne(vars, EvalAll(vars, env2.vals), i);
    MeetHalfway(Address(gep1, env1), Address(gep2, env2), d1.form.offset, vars[i].scale * delta, size);
  }

  /** With one variable set, all others are zero. */
  lemma OnlyOneShifted(vars: seq<VarIndex>, i: nat, delta: Word)
    requires Reduced(vars) && i < |vars| && forall j :: 0 <= j < |vars| ==> vars[j].v.Opaque?
    ensures forall j :: 0 <= j < |vars| ==> EvalAll(vars, map[])[j] == 0
    ensures forall j :: 0 <= j < |vars| ==> EvalAll(vars, map[vars[i].v.id := delta])[j] == if j == i then delta else 0
  {
    hide Eval;
    forall j | 0 <= j < |vars|
      ensures EvalAll(vars, map[])[j] == 0
      ensures EvalAll(vars, map[vars[i].v.id := delta])[j] == if j == i then delta else 0
    {
      OpaqueIs(vars[j].v.id, map[]);
      OpaqueIs(vars[j].v.id, map[vars[i].v.id := delta]);
      assert vars[j].v == Opaque(vars[j].v.id);
      if j != i {
        assert vars[j].v != vars[i].v;
      }
    }
  }

  lemma NothingMasked(facts: Facts, vals: Vals)
    requires PlainFacts(facts)
    ensures MaskedHolds(facts, vals)
  {
  }

  lemma ShiftRelates(facts: Facts, env1: Env, env2: Env, id: int)
    requires PlainFacts(facts) && !facts.same(Opaque(id)) && env1.vals == map[] && env2.vals.Keys == {id}
    ensures Related(facts, env1, env2)
  {
    NothingMasked(facts, env1.vals);
    NothingMasked(facts, env2.vals);
    hide MaskedHolds;
    forall v | facts.same(v)
      ensures Eval(v, env1.vals) == Eval(v, env2.vals)
    {
      RootIsOpaque(v);
      assert facts.same(Root(v));
      EvalRoot(v, 64, env1.vals, env2.vals);
    }
  }

  lemma {:induction false} RootIsOpaque(e: Expr)
    ensures Root(e).Opaque?
    decreases e
  {
    if !e.Opaque? {
      RootIsOpaque(e.of);
    }
  }

  lemma HalvesDisjoint(size: Word)
    requires size < HALF
    ensures Disjoint(HALF, size, 0, size)
  {
    hide Cong;
    forall i, j | 0 <= i < size && 0 <= j < size
      ensures !Meets(HALF, i, 0, j)
    {
      if Meets(HALF, i, 0, j) {
        CongClose(MODULUS, HALF + i, j);
      }
    }
  }

  lemma MeetHalfway(a1: int, a2: int, offset: int, shift: int, size: Word)
    requires Cong(MODULUS, a1, HALF + offset) && Cong(MODULUS, a2, offset + shift) && Cong(MODULUS, shift, HALF)
             && size > 0
    ensures !Disjoint(a1, size, a2, size)
  {
    hide Cong;
    CongSame(MODULUS, offset);
    CongAdd(MODULUS, offset, offset, shift, HALF);
    CongTrans(MODULUS, a2, offset + shift, offset + HALF);
    CongSym(MODULUS, a2, offset + HALF);
    CongTrans(MODULUS, a1, HALF + offset, a2);
    assert Meets(a1, 0, a2, 0);
  }

  lemma Shifted(a1: int, b1: int, a2: int, b2: int, x: int, i: int, j: int)
    requires Cong(MODULUS, a1, b1 + x) && Cong(MODULUS, a2, b2 + x) && Cong(MODULUS, a1 + i, a2 + j)
    ensures Meets(b1, i, b2, j)
  {
    hide Cong;
    CongSame(MODULUS, i - x);
    CongSame(MODULUS, j - x);
    CongAdd(MODULUS, a1, b1 + x, i - x, i - x);
    CongAdd(MODULUS, a2, b2 + x, j - x, j - x);
    CongSame(MODULUS, -x);
    CongAdd(MODULUS, a1 + i, a2 + j, -x, -x);
    CongSym(MODULUS, a1 + (i - x), b1 + i);
    CongTrans(MODULUS, b1 + i, a1 + (i - x), a2 + (j - x));
    CongTrans(MODULUS, b1 + i, a2 + (j - x), b2 + j);
  }

  function OneSubscript(id: int, v: Expr): Ptr {
    Gep(Object(id), [Element(1, VarSubscript(v, 64))], true)
  }

  lemma OneSubscriptForm(facts: Facts, id: int, v: Expr)
    ensures DecomposeGEP(facts, OneSubscript(id, v))
            == Decomposed(Object(id), AddIndices(facts, Form(0, []), [Element(1, VarSubscript(v, 64))]), false)
  {
    var indices := [Element(1, VarSubscript(v, 64))];
    var f := AddIndices(facts, Form(0, []), indices);
    hide AddIndices;
    assert Decompose(facts, OneSubscript(id, v), Form(0, []), 6) == Decompose(facts, Object(id), f, 5)
      == Decomposed(Object(id), f, false);
  }

  lemma OpaqueIs(id: int, vals: Vals)
    ensures Eval(Opaque(id), vals) == Unsigned(if id in vals then vals[id] else 0)
  {
    hide Pow2;
    Pow2Is64();
  }

  lemma OneSubscriptAddress(id: int, env: Env)
    ensures Address(OneSubscript(id, Opaque(7)), env)
            == Unsigned(Address(Object(id), env) + Unsigned(if 7 in env.vals then env.vals[7] else 0))
  {
    hide EvalAt;
    var indices := [Element(1, VarSubscript(Opaque(7), 64))];
    assert indices[1..] == [];
    assert OffsetSum(indices[1..], env.vals) == 0;
    OpaqueIs(7, env.vals);
  }

  lemma FourApart()
    ensures Disjoint(0, 4, 4, 4) && !Disjoint(4, 4, 4, 4)
  {
    hide Cong;
    forall i, j | 0 <= i < 4 && 0 <= j < 4
      ensures !Meets(0, i, 4, j)
    {
      if Meets(0, i, 4, j) {
        CongClose(MODULUS, i, 4 + j);
      }
    }
    CongSame(MODULUS, 4);
    assert Meets(4, 0, 4, 0);
  }

  lemma ObjectAddress(id: int, a: Word)
    ensures forall vals: Vals :: Address(Object(id), Env(map[id := a], vals)) == a
  {
  }

  /** A small input: bases 0 and 4, and one variable that is 4 in one iteration and 0 in another. */
  lemma SameOffsetsCanMeet(facts: Facts)
    ensures var p, q := OneSubscript(1, Opaque(7)), OneSubscript(2, Opaque(7));
            var env1, env2 := Env(map[1 := 0], map[7 := 4]), Env(map[2 := 4], map[7 := 0]);
            && AliasGepAnswer(facts, p, 4, q, 4, MayAlias, NoAlias) == NoAlias
            && Disjoint(Address(Object(1), env1), 4, Address(Object(2), env2), 4)
            && !Disjoint(Address(p, env1), 4, Address(q, env2), 4)
  {
    hide Decompose, Disjoint, AddIndices, Decide, SubtractAll, Signed, Address, EvalAt;
    var env1, env2 := Env(map[1 := 0], map[7 := 4]), Env(map[2 := 4], map[7 := 0]);
    OneSubscriptForm(facts, 1, Opaque(7));
    OneSubscriptForm(facts, 2, Opaque(7));
    OneSubscriptAddress(1, env1);
    OneSubscriptAddress(2, env2);
    ObjectAddress(1, 0);
    ObjectAddress(2, 4);
    FourApart();
  }

  lemma Difference(a1: int, a2: int, b1: int, b2: int, o1: int, o2: int, s1: int, s2: int, s: int)
    requires Cong(MODULUS, a1, b1 + (o1 + s1)) && Cong(MODULUS, a2, b2 + (o2 + s2)) && Cong(MODULUS, b1, b2)
             && Cong(MODULUS, s, s1 - s2)
    ensures Cong(MODULUS, a1 - a2, Signed(o1 - o2) + s)
  {
    hide Cong, Signed;
    CongAdd(MODULUS, a1, b1 + (o1 + s1), a2, b2 + (o2 + s2));
    CongSame(MODULUS, o1 + s1 - (o2 + s2));
    CongSame(MODULUS, b2);
    CongAdd(MODULUS, b1, b2, b2, b2);
    CongAdd(MODULUS, b1 - b2, 0, o1 + s1 - (o2 + s2), o1 + s1 - (o2 + s2));
    CongTrans(MODULUS, a1 - a2, b1 + (o1 + s1) - (b2 + (o2 + s2)), (o1 - o2) + (s1 - s2));
    SignedCong(o1 - o2);
    CongAdd(MODULUS, Signed(o1 - o2), o1 - o2, s, s1 - s2);
    CongSym(MODULUS, Signed(o1 - o2) + s, (o1 - o2) + (s1 - s2));
    CongTrans(MODULUS, a1 - a2, (o1 - o2) + (s1 - s2), Signed(o1 - o2) + s);
  }
}
