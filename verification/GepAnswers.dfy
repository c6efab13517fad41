// The answers about getelementptr are the best ones: everything that can be looked through is, and "no
// alias" is given exactly if the accesses are disjoint for all values of the variables.
module GepAnswers {
  import opened MachineIntegers
  import opened GepLinear
  import opened BasicAliasAnalysis

  // ---------------------------------------------------------------- what is looked through

  /** Is the value split into its operand, a scale and an offset? */
  predicate LooksInto(facts: Facts, e: Expr, w: nat, ext: Extension) {
    match e
    case Binary(_, op, of, k) => op.OrOp? ==> facts.masked(of, w, k)
    case Cast(_, signed, _, _) => LooksThrough(signed, ext)
    case _ => false
  }

  /** The operand of the operand of ... e. */
  function Below(e: Expr, n: nat): Expr {
    if n == 0 || e.Opaque? then e else Below(e.of, n - 1)
  }

  /** The variable of a linear form cannot be split any more, unless the limit of six steps is reached. */
  lemma {:induction false} LinearGoesDown(facts: Facts, e: Expr, w: nat, ext: Extension, depth: nat) returns (n: nat)
    requires depth <= MAX_DEPTH
    ensures var l := GetLinearExpression(facts, e, w, ext, depth);
            n <= 6 - depth && l.v == Below(e, n) && (n == 6 - depth || !LooksInto(facts, l.v, l.width, l.ext))
    decreases MAX_DEPTH - depth
  {
    hide Wrap, Pow2;
    n := 0;
    if depth < MAX_DEPTH && LooksInto(facts, e, w, ext) {
      var width := if e.Cast? then e.width else w;
      var m := LinearGoesDown(facts, e.of, width, if e.Cast? then KindOf(e.signed) else ext, depth + 1);
      n := m + 1;
    }
  }

  predicate StepsOver(p: Ptr) {
    p.Through? || (p.Gep? && p.sized)
  }

  function Down(p: Ptr, n: nat): Ptr {
    if n == 0 then p
    else
      match p
      case Object(_) => p
      case Through(to) => Down(to, n - 1)
      case Gep(base, _, _) => Down(base, n - 1)
  }

  /** The base is the end of the chain, or what is left of it after the limit: the limit is reached exactly if
      that many steps could be made. */
  lemma {:induction false} DecomposeGoesDown(facts: Facts, p: Ptr, f: Form, n: nat) returns (m: nat)
    ensures var d := Decompose(facts, p, f, n);
            && m <= n && d.base == Down(p, m) && (d.maxLookupReached <==> m == n)
            && (m < n ==> !StepsOver(d.base)) && forall k :: 0 <= k < m ==> StepsOver(Down(p, k))
    decreases n
  {
    hide AddIndices;
    m := 0;
    if n > 0 && StepsOver(p) {
      var to := if p.Through? then p.to else p.base;
      var f' := if p.Through? then f else AddIndices(facts, f, p.indices);
      var j := DecomposeGoesDown(facts, to, f', n - 1);
      m := j + 1;
      forall k | 0 <= k < m
        ensures StepsOver(Down(p, k))
      {
        if k > 0 { assert Down(p, k) == Down(to, k - 1); }
      }
    }
  }

  /** At most six steps. */
  lemma DecomposeGEPGoesDown(facts: Facts, p: Ptr) returns (m: nat)
    ensures var d := DecomposeGEP(facts, p);
            && m <= 6 && d.base == Down(p, m) && (d.maxLookupReached <==> m == 6)
            && (m < 6 ==> !StepsOver(d.base)) && forall k :: 0 <= k < m ==> StepsOver(Down(p, k))
  {
    hide Decompose;
    m := DecomposeGoesDown(facts, p, Form(0, []), MAX_LOOKUP);
  }

  // ---------------------------------------------------------------- differences of variables

  function ScaleOf(vars: seq<VarIndex>, v: Expr): int {
    var i := FindVar(vars, v, 0);
    if i < |vars| then vars[i].scale else 0
  }

  /** A variable known to be the same in both pointers is listed once. */
  ghost predicate SameOnce(facts: Facts, vars: seq<VarIndex>) {
    forall i, j :: 0 <= i < j < |vars| && vars[i].v == vars[j].v ==> !facts.same(vars[i].v)
  }

  /** An entry of dest - src: the difference of the scales if the variable is the same in both pointers, and
      otherwise the entry of one of the two lists. */
  ghost predicate ComesFrom(facts: Facts, dest: seq<VarIndex>, src: seq<VarIndex>, x: VarIndex) {
    if facts.same(x.v) then Cong(MODULUS, x.scale, ScaleOf(dest, x.v) - ScaleOf(src, x.v))
    else x in dest || (ScaleOf(src, x.v) != 0 && x.scale == Signed(-ScaleOf(src, x.v)))
  }

  lemma ScaleAt(vars: seq<VarIndex>, v: Expr, i: nat)
    requires i < |vars| && vars[i].v == v && forall j :: 0 <= j < |vars| && vars[j].v == v ==> j == i
    ensures ScaleOf(vars, v) == vars[i].scale
  {
  }

  lemma ScaleNone(vars: seq<VarIndex>, v: Expr)
    requires forall j :: 0 <= j < |vars| ==> vars[j].v != v
    ensures ScaleOf(vars, v) == 0
  {
  }

  lemma NotFound(facts: Facts, dest: seq<VarIndex>, v: Expr, j: nat)
    requires j <= |dest| && FindSame(facts, dest, v, j) == |dest| && facts.same(v)
    ensures forall i :: j <= i < |dest| ==> dest[i].v != v
    decreases |dest| - j
  {
    if j < |dest| { NotFound(facts, dest, v, j + 1); }
  }

  /** One entry is subtracted: what happens to the variables that are the same, and to the others. */
  lemma SubtractOnce(facts: Facts, dest: seq<VarIndex>, s: VarIndex)
    requires SameOnce(facts, dest) && s.scale != 0
    ensures SameOnce(facts, Subtract(facts, dest, s))
    ensures forall x :: x in Subtract(facts, dest, s) && !facts.same(x.v) ==>
                          x in dest || x == VarIndex(s.v, Signed(-s.scale))
  {
    hide Signed;
    var j := FindSame(facts, dest, s.v, 0);
    if j == |dest| && facts.same(s.v) { NotFound(facts, dest, s.v, 0); }
  }

  /** The entries of other variables stay. */
  lemma OthersStay(facts: Facts, dest: seq<VarIndex>, s: VarIndex, x: VarIndex)
    requires x.v != s.v
    ensures x in dest <==> x in Subtract(facts, dest, s)
  {
    var j := FindSame(facts, dest, s.v, 0);
    var d := Subtract(facts, dest, s);
    if x in dest {
      var i :| 0 <= i < |dest| && dest[i] == x;
      if j == |dest| || dest[j].scale != s.scale || i < j {
        assert d[i] == x;
      } else {
        assert d[i - 1] == x;
      }
    }
  }

  lemma SubtractedScale(facts: Facts, dest: seq<VarIndex>, s: VarIndex, v: Expr)
    requires SameOnce(facts, dest) && s.scale != 0 && facts.same(v)
    ensures Cong(MODULUS, ScaleOf(Subtract(facts, dest, s), v), ScaleOf(dest, v) - if v == s.v then s.scale else 0)
  {
    hide Signed, Cong, FindVar, ScaleOf;
    var j := FindSame(facts, dest, s.v, 0);
    var d := Subtract(facts, dest, s);
    SubtractOnce(facts, dest, s);
    CongSame(MODULUS, ScaleOf(dest, v));
    if j == |dest| {
      if v == s.v {
        NotFound(facts, dest, v, 0);
        ScaleNone(dest, v);
        ScaleAt(d, v, |dest|);
        SignedCong(-s.scale);
      } else {
        ScaleStays(facts, dest, s, v);
      }
    } else if v != s.v {
      ScaleStays(facts, dest, s, v);
    } else {
      ScaleAt(dest, v, j);
      if dest[j].scale == s.scale {
        ScaleNone(d, v);
        CongSame(MODULUS, 0);
      } else {
        ScaleAt(d, v, j);
        SignedCong(dest[j].scale - s.scale);
      }
    }
  }

  lemma ScaleStays(facts: Facts, dest: seq<VarIndex>, s: VarIndex, v: Expr)
    requires SameOnce(facts, dest) && s.scale != 0 && facts.same(v) && v != s.v
    ensures ScaleOf(Subtract(facts, dest, s), v) == ScaleOf(dest, v)
  {
    hide Subtract, ScaleOf;
    SubtractOnce(facts, dest, s);
    var d := Subtract(facts, dest, s);
    forall x: VarIndex | x.v == v
      ensures x in dest <==> x in d
    {
      OthersStay(facts, dest, s, x);
    }
    ScaleKept(dest, d, v);
  }

  /** The entries for a variable listed at most once are the same in both lists. */
  lemma ScaleKept(dest: seq<VarIndex>, d: seq<VarIndex>, v: Expr)
    requires forall i, j :: 0 <= i < j < |dest| && dest[i].v == dest[j].v ==> dest[i].v != v
    requires forall i, j :: 0 <= i < j < |d| && d[i].v == d[j].v ==> d[i].v != v
    requires forall x: VarIndex :: x.v == v ==> (x in dest <==> x in d)
    ensures ScaleOf(dest, v) == ScaleOf(d, v)
  {
    var i, j := FindVar(dest, v, 0), FindVar(d, v, 0);
    if i < |dest| {
      assert dest[i] in d;
    }
    if j < |d| {
      assert d[j] in dest;
    }
  }

  /** GetIndexDifference: every entry of the result is a difference of scales, or an entry of one list. */
  lemma {:induction false} DifferenceEntries(facts: Facts, dest: seq<VarIndex>, src: seq<VarIndex>)
    requires SameOnce(facts, dest) && Reduced(src)
    ensures SameOnce(facts, SubtractAll(facts, dest, src))
    ensures forall x :: x in SubtractAll(facts, dest, src) ==> ComesFrom(facts, dest, src, x)
    decreases |src|
  {
    hide Signed, Cong, FindVar, ScaleOf, Subtract;
    var d := SubtractAll(facts, dest, src);
    if src == [] {
      forall x | x in d
        ensures ComesFrom(facts, dest, src, x)
      {
        var i :| 0 <= i < |d| && d[i] == x;
        ScaleNone(src, x.v);
        if facts.same(x.v) { ScaleAt(dest, x.v, i); }
        CongSame(MODULUS, x.scale);
      }
    } else {
      var s, rest := src[0], src[1..];
      var d1 := Subtract(facts, dest, s);
      SubtractOnce(facts, dest, s);
      DifferenceEntries(facts, d1, rest);
      forall x | x in d
        ensures ComesFrom(facts, dest, src, x)
      {
        assert ComesFrom(facts, d1, rest, x);
        EntryFrom(facts, dest, src, x);
      }
    }
  }

  lemma EntryFrom(facts: Facts, dest: seq<VarIndex>, src: seq<VarIndex>, x: VarIndex)
    requires SameOnce(facts, dest) && Reduced(src) && src != []
    requires ComesFrom(facts, Subtract(facts, dest, src[0]), src[1..], x)
    ensures ComesFrom(facts, dest, src, x)
  {
    hide Signed, Cong, FindVar, ScaleOf, Subtract;
    var s, rest := src[0], src[1..];
    var d1 := Subtract(facts, dest, s);
    SubtractOnce(facts, dest, s);
    FirstScale(src, x.v);
    if facts.same(x.v) {
      SubtractedScale(facts, dest, s, x.v);
      var e := if x.v == s.v then s.scale else 0;
      CongSame(MODULUS, ScaleOf(rest, x.v));
      CongAdd(MODULUS, ScaleOf(d1, x.v), ScaleOf(dest, x.v) - e, ScaleOf(rest, x.v), ScaleOf(rest, x.v));
      CongTrans(MODULUS, x.scale, ScaleOf(d1, x.v) - ScaleOf(rest, x.v), ScaleOf(dest, x.v) - e - ScaleOf(rest, x.v));
    }
  }

  lemma FirstScale(src: seq<VarIndex>, v: Expr)
    requires Reduced(src) && src != []
    ensures ScaleOf(src, v) == if v == src[0].v then src[0].scale else ScaleOf(src[1..], v)
    ensures v == src[0].v ==> ScaleOf(src[1..], v) == 0
  {
    var rest := src[1..];
    if v == src[0].v {
      ScaleAt(src, v, 0);
      ScaleNone(rest, v);
    } else {
      ScaleKept(src, rest, v);
    }
  }

  /** The same list twice, of variables that are the same in both pointers, leaves nothing. */
  lemma SameListsCancel(facts: Facts, vars: seq<VarIndex>)
    requires Reduced(vars) && AllSame(facts, vars)
    ensures SubtractAll(facts, vars, vars) == []
  {
    hide Signed, FindVar, ScaleOf, Subtract, SubtractAll;
    DifferenceEntries(facts, vars, vars);
    DifferenceScaled(facts, vars, vars);
    var d := SubtractAll(facts, vars, vars);
    if d != [] {
      assert ComesFrom(facts, vars, vars, d[0]);
      if facts.same(d[0].v) {
        CongClose(MODULUS, d[0].scale, 0);
      } else {
        FromSame(facts, vars, d[0]);
      }
    }
  }

  lemma FromSame(facts: Facts, vars: seq<VarIndex>, x: VarIndex)
    requires AllSame(facts, vars) && (x in vars || ScaleOf(vars, x.v) != 0)
    ensures facts.same(x.v)
  {
  }

  /** Twice the same getelementptr. */
  lemma SameGepMustAlias(facts: Facts, gep: Ptr, size1: Word, size2: Word, precise: Alias)
    requires gep.Gep? && !DecomposeGEP(facts, gep).maxLookupReached
    requires AllSame(facts, DecomposeGEP(facts, gep).form.vars)
    ensures AliasGepAnswer(facts, gep, size1, gep, size2, MustAlias, precise) == MustAlias
  {
    hide DecomposeGEP, SubtractAll;
    Reduces(facts, gep);
    SameListsCancel(facts, DecomposeGEP(facts, gep).form.vars);
  }

  // ---------------------------------------------------------------- the differences that can occur

  /** An odd number has an inverse modulo a power of two. */
  lemma {:induction false} OddInverse(q: int, n: nat) returns (r: int)
    requires q % 2 == 1
    ensures Cong(Pow2(n), q * r, 1)
    decreases n
  {
    hide Cong, Pow2;
    if n == 0 {
      r := 0;
      assert Pow2(0) == 1 by { NoPow2(); }
      CongBy(1, q * r, 1, -1);
    } else {
      var r1 := OddInverse(q, n - 1);
      var p := Pow2(n - 1);
      TwicePow2(n - 1);
      var c := Quotient(p, q * r1, 1);
      r := if c % 2 == 0 then r1 else r1 + p;
      NextInverse(p, q, r1, c);
    }
  }

  lemma NextInverse(p: int, q: int, r: int, c: int)
    requires p > 0 && q % 2 == 1 && q * r - 1 == p * c
    ensures Cong(2 * p, q * (if c % 2 == 0 then r else r + p), 1)
  {
    hide Cong;
    if c % 2 == 0 {
      assert p * c == 2 * p * (c / 2);
      CongBy(2 * p, q * r, 1, c / 2);
    } else {
      assert q * (r + p) == q * r + q * p;
      assert (c + q) % 2 == 0;
      assert p * c + q * p == p * (c + q) == 2 * p * ((c + q) / 2);
      CongBy(2 * p, q * (r + p), 1, (c + q) / 2);
    }
  }

  lemma Quotient(m: int, a: int, b: int) returns (q: int)
    requires m > 0 && Cong(m, a, b)
    ensures a - b == m * q
  {
    q :| a - b == m * q;
  }

  /** A scale with exactly k factors of two reaches every multiple of 2^k. */
  lemma ScaleReaches(s: int, k: nat, t: int) returns (y: Word)
    requires k < 64 && Unsigned(s) % Pow2(k) == 0 && Unsigned(s) % Pow2(k + 1) != 0
    ensures Cong(MODULUS, s * y, Pow2(k) * t)
  {
    hide Cong, Pow2, Unsigned;
    var u, p, h := Unsigned(s), Pow2(k), Pow2(64 - k);
    var q := u / p;
    assert u == p * q by { DivMod(u, p); Commutes(p, q); }
    assert Pow2(k + 1) == 2 * p by { TwicePow2(k); }
    OddQuotient(u, p, q);
    var r := OddInverse(q, 64 - k);
    y := Unsigned(r * t);
    Pow2Adds(k, 64 - k);
    Pow2Is64();
    CongMul(h, q * r, 1, t);
    var c := Quotient(h, q * r * t, 1 * t);
    assert u * (r * t) - p * t == MODULUS * c by { Reached(u, p, q, r, t, h, c); }
    CongBy(MODULUS, u * (r * t), p * t, c);
    SignedCong(r * t);
    SignedCong(s);
    CongMul(MODULUS, u, s, y);
    CongSym(MODULUS, u * y, s * y);
    CongMul(MODULUS, y, r * t, u);
    CongTrans(MODULUS, s * y, u * y, u * (r * t));
    CongTrans(MODULUS, s * y, u * (r * t), p * t);
  }

  lemma Commutes(a: int, b: int)
    ensures a * b == b * a
  {
  }

  lemma Reached(u: int, p: int, q: int, r: int, t: int, h: int, c: int)
    requires u == p * q && q * r * t - 1 * t == h * c && p * h == MODULUS
    ensures u * (r * t) - p * t == MODULUS * c
  {
    assert u * (r * t) == p * (q * (r * t)) && q * (r * t) == q * r * t;
    assert p * (q * r * t) - p * t == p * (q * r * t - t) == p * (h * c) == p * h * c;
  }

  /** Accesses of these sizes at addresses so far apart meet. */
  lemma MeetApart(a1: int, a2: int, d: int, size1: Word, size2: Word)
    requires Cong(MODULUS, a1 - a2, d) && size1 > 0 && size2 > 0 && 0 - size1 < d < size2
    ensures !Disjoint(a1, size1, a2, size2)
  {
    hide Cong;
    CongSame(MODULUS, a2);
    CongAdd(MODULUS, a1 - a2, d, a2, a2);
    if d >= 0 {
      assert Meets(a1, 0, a2, d);
    } else {
      CongSame(MODULUS, -d);
      CongAdd(MODULUS, a1, a2 + d, -d, -d);
      assert Meets(a1, -d, a2, 0);
    }
  }

  /** If the modulus test does not say "no alias", some value of one variable makes the accesses meet. */
  lemma VariableMeets(offset: int, vars: seq<VarIndex>, size1: Word, size2: Word) returns (i: nat, y: Word)
    requires Scaled(vars) && vars != [] && 0 < size1 != UNKNOWN_SIZE && 0 < size2 != UNKNOWN_SIZE
    requires Decide(offset, vars, size1, size2) != NoAlias
    ensures i < |vars|
    ensures forall a1: int, a2: int {:trigger Disjoint(a1, size1, a2, size2)} ::
              Cong(MODULUS, a1 - a2, offset + vars[i].scale * y) ==> !Disjoint(a1, size1, a2, size2)
  {
    hide Cong, Pow2, Unsigned, OrAll, Disjoint, Scaled;
    var k := ModulusIsLargest(vars);
    i :| 0 <= i < |vars| && Unsigned(vars[i].scale) % Pow2(k + 1) != 0;
    var p := Pow2(k);
    var m := offset % p;
    DivMod(offset, p);
    var d := if m < size2 then m else m - p;
    var t := if m < size2 then -(offset / p) else -(offset / p) - 1;
    y := ScaleReaches(vars[i].scale, k, t);
    assert offset + p * t == d by { Commutes(p, offset / p); }
    forall a1: int, a2: int | Cong(MODULUS, a1 - a2, offset + vars[i].scale * y)
      ensures !Disjoint(a1, size1, a2, size2)
    {
      CongSame(MODULUS, offset);
      CongAdd(MODULUS, offset, offset, vars[i].scale * y, p * t);
      CongTrans(MODULUS, a1 - a2, offset + vars[i].scale * y, d);
      MeetApart(a1, a2, d, size1, size2);
    }
  }

  // ---------------------------------------------------------------- values for one variable

  ghost predicate AllOpaque(vars: seq<VarIndex>) {
    forall i :: 0 <= i < |vars| ==> vars[i].v.Opaque?
  }

  lemma SumOfVariable(vars: seq<VarIndex>, id: int, y: Word)
    requires Reduced(vars) && AllOpaque(vars)
    ensures SumScaled(vars, EvalAll(vars, map[id := y])) == ScaleOf(vars, Opaque(id)) * y
    ensures SumScaled(vars, EvalAll(vars, map[])) == 0
  {
    hide SumScaled, Eval;
    var vals := EvalAll(vars, map[id := y]);
    forall j | 0 <= j < |vars|
      ensures vals[j] == (if vars[j].v == Opaque(id) then y else 0) && EvalAll(vars, map[])[j] == 0
    {
      assert vars[j].v == Opaque(vars[j].v.id);
      OpaqueIs(vars[j].v.id, map[id := y]);
      OpaqueIs(vars[j].v.id, map[]);
    }
    SumOfZeros(vars, EvalAll(vars, map[]));
    var i := FindVar(vars, Opaque(id), 0);
    if i < |vars| {
      SumOfOne(vars, vals, i);
    } else {
      SumOfZeros(vars, vals);
    }
  }

  lemma SameVals(facts: Facts, env: Env)
    requires PlainFacts(facts)
    ensures Related(facts, env, env)
  {
    NothingMasked(facts, env.vals);
  }

  lemma RelatedBack(facts: Facts, env1: Env, env2: Env)
    requires Related(facts, env1, env2)
    ensures Related(facts, env2, env1)
  {
    hide MaskedHolds, Eval;
  }

  lemma EntryOfDifference(facts: Facts, vars1: seq<VarIndex>, vars2: seq<VarIndex>, i: nat)
    requires Reduced(vars1) && Reduced(vars2) && i < |SubtractAll(facts, vars1, vars2)|
    ensures ComesFrom(facts, vars1, vars2, SubtractAll(facts, vars1, vars2)[i])
  {
    hide ComesFrom, SubtractAll;
    DifferenceEntries(facts, vars1, vars2);
    assert SubtractAll(facts, vars1, vars2)[i] in SubtractAll(facts, vars1, vars2);
  }

  /** Values for which only one entry of the difference counts. */
  lemma OneEntryCounts(facts: Facts, vars1: seq<VarIndex>, vars2: seq<VarIndex>, i: nat, y: Word, objects: map<int,
                       int>)
    returns (env1: Env, env2: Env)
    requires PlainFacts(facts) && Reduced(vars1) && Reduced(vars2) && AllOpaque(vars1) && AllOpaque(vars2)
    requires i < |SubtractAll(facts, vars1, vars2)| && SubtractAll(facts, vars1, vars2)[i].v.Opaque?
    ensures Related(facts, env1, env2) && env1.objects == env2.objects == objects
    ensures Cong(MODULUS, SubtractAll(facts, vars1, vars2)[i].scale * y,
              SumScaled(vars1, EvalAll(vars1, env1.vals)) - SumScaled(vars2, EvalAll(vars2, env2.vals)))
  {
    hide Cong, SumScaled, EvalAll, ScaleOf, SubtractAll, Signed, Related, PlainFacts, Reduced, AllOpaque;
    EntryOfDifference(facts, vars1, vars2, i);
    env1, env2 := EntryCounts(facts, vars1, vars2, SubtractAll(facts, vars1, vars2)[i], y, objects);
  }

  lemma EntryCounts(facts: Facts, vars1: seq<VarIndex>, vars2: seq<VarIndex>, x: VarIndex, y: Word,
                    objects: map<int, int>) returns (env1: Env, env2: Env)
    requires PlainFacts(facts) && Reduced(vars1) && Reduced(vars2) && AllOpaque(vars1) && AllOpaque(vars2)
    requires ComesFrom(facts, vars1, vars2, x) && x.v.Opaque?
    ensures Related(facts, env1, env2) && env1.objects == env2.objects == objects
    ensures Cong(MODULUS, x.scale * y,
              SumScaled(vars1, EvalAll(vars1, env1.vals)) - SumScaled(vars2, EvalAll(vars2, env2.vals)))
  {
    hide Cong, SumScaled, EvalAll, ScaleOf, Signed, Related, PlainFacts, Reduced, AllOpaque;
    var none, one := Env(objects, map[]), Env(objects, map[x.v.id := y]);
    assert x.v == Opaque(x.v.id);
    SumOfVariable(vars1, x.v.id, y);
    SumOfVariable(vars2, x.v.id, y);
    var s1, s2 := ScaleOf(vars1, x.v), ScaleOf(vars2, x.v);
    if facts.same(x.v) {
      env1, env2 := one, one;
      SameVals(facts, one);
      SameScales(x.scale, s1, s2, y);
    } else {
      ShiftRelates(facts, none, one, x.v.id);
      if x in vars1 {
        env1, env2 := one, none;
        RelatedBack(facts, none, one);
        InList(vars1, x);
        CongSame(MODULUS, x.scale * y);
      } else {
        env1, env2 := none, one;
        SignedCong(-s2);
        SameScales(x.scale, 0, s2, y);
      }
    }
  }

  lemma SameScales(s: int, s1: int, s2: int, y: int)
    requires Cong(MODULUS, s, s1 - s2)
    ensures Cong(MODULUS, s * y, s1 * y - s2 * y)
  {
    hide Cong;
    CongMul(MODULUS, s, s1 - s2, y);
    assert (s1 - s2) * y == s1 * y - s2 * y;
  }

  lemma InList(vars: seq<VarIndex>, x: VarIndex)
    requires Reduced(vars) && x in vars
    ensures ScaleOf(vars, x.v) == x.scale
  {
    var i :| 0 <= i < |vars| && vars[i] == x;
    ScaleAt(vars, x.v, i);
  }

  lemma EntriesOpaque(facts: Facts, vars1: seq<VarIndex>, vars2: seq<VarIndex>)
    requires Reduced(vars1) && Reduced(vars2) && AllOpaque(vars1) && AllOpaque(vars2)
    ensures AllOpaque(SubtractAll(facts, vars1, vars2))
  {
    hide Cong, SubtractAll, Signed;
    DifferenceEntries(facts, vars1, vars2);
    DifferenceScaled(facts, vars1, vars2);
    var d := SubtractAll(facts, vars1, vars2);
    forall i | 0 <= i < |d|
      ensures d[i].v.Opaque?
    {
      assert d[i] in d && ComesFrom(facts, vars1, vars2, d[i]);
      if !d[i].v.Opaque? {
        ScaleNone(vars1, d[i].v);
        ScaleNone(vars2, d[i].v);
        if facts.same(d[i].v) {
          CongClose(MODULUS, d[i].scale, 0);
        }
      }
    }
  }

  // ---------------------------------------------------------------- the answers over one object

  /** Both pointers go into one object through opaque variables, and the chains could be followed to the end. */
  ghost predicate OneObject(facts: Facts, gep1: Ptr, v2: Ptr) {
    && gep1.Gep? && SafePtr(facts, gep1) && SafePtr(facts, v2) && PlainFacts(facts)
    && var d1, d2 := DecomposeGEP(facts, gep1), DecomposeGEP(facts, v2);
       && d1.base.Object? && d2.base == d1.base && (v2.Gep? || v2 == d1.base)
       && !d1.maxLookupReached && !d2.maxLookupReached && AllOpaque(d1.form.vars) && AllOpaque(d2.form.vars)
  }

  /** For all values that the variables can have. */
  ghost predicate AlwaysDisjoint(facts: Facts, gep1: Ptr, size1: Word, v2: Ptr, size2: Word) {
    forall env1, env2 {:trigger Related(facts, env1, env2)} ::
      Related(facts, env1, env2) && env1.objects == env2.objects ==>
        Disjoint(Address(gep1, env1), size1, Address(v2, env2), size2)
  }

  ghost predicate AlwaysEqual(facts: Facts, gep1: Ptr, v2: Ptr) {
    forall env1, env2 {:trigger Related(facts, env1, env2)} ::
      Related(facts, env1, env2) && env1.objects == env2.objects ==>
        Cong(MODULUS, Address(gep1, env1), Address(v2, env2))
  }

  function OffsetBetween(facts: Facts, gep1: Ptr, v2: Ptr): int {
    Signed(DecomposeGEP(facts, gep1).form.offset - DecomposeGEP(facts, v2).form.offset)
  }

  function VarsBetween(facts: Facts, gep1: Ptr, v2: Ptr): seq<VarIndex> {
    SubtractAll(facts, DecomposeGEP(facts, gep1).form.vars, DecomposeGEP(facts, v2).form.vars)
  }

  /** The answer is the one about the difference, and the difference is a reduced list. */
  lemma AnswerIs(facts: Facts, gep1: Ptr, size1: Word, v2: Ptr, size2: Word, precise: Alias)
    requires OneObject(facts, gep1, v2) && size1 != UNKNOWN_SIZE && size2 != UNKNOWN_SIZE
    ensures AliasGepAnswer(facts, gep1, size1, v2, size2, MustAlias, precise)
            == Decide(OffsetBetween(facts, gep1, v2), VarsBetween(facts, gep1, v2), size1, size2)
    ensures Scaled(VarsBetween(facts, gep1, v2)) && AllOpaque(VarsBetween(facts, gep1, v2))
    ensures IsSigned(OffsetBetween(facts, gep1, v2))
  {
    hide Decide, DecomposeGEP, SafePtr, PlainFacts, Subtract, Reduced, Scaled, AllOpaque;
    Reduces(facts, gep1);
    Reduces(facts, v2);
    var d1, d2 := DecomposeGEP(facts, gep1), DecomposeGEP(facts, v2);
    DifferenceScaled(facts, d1.form.vars, d2.form.vars);
    EntriesOpaque(facts, d1.form.vars, d2.form.vars);
    SignedCong(d1.form.offset - d2.form.offset);
    if v2.Object? {
      ObjectForm(facts, v2);
      SmallIsSigned(d1.form.offset);
    }
  }

  lemma ObjectForm(facts: Facts, p: Ptr)
    requires p.Object?
    ensures DecomposeGEP(facts, p) == Decomposed(p, Form(0, []), false)
  {
  }

  lemma SmallIsSigned(x: int)
    requires IsSigned(x)
    ensures Signed(x - 0) == x
  {
  }

  lemma Reduces(facts: Facts, p: Ptr)
    ensures var d := DecomposeGEP(facts, p); Reduced(d.form.vars) && Scaled(d.form.vars) && IsSigned(d.form.offset)
  {
    hide Decompose;
    NoVars();
    DecomposeReduced(facts, p, Form(0, []), MAX_LOOKUP);
  }

  /** One entry of the difference takes a value, all else is zero: how far the pointers are apart. */
  lemma ApartBy(facts: Facts, gep1: Ptr, v2: Ptr, i: nat, y: Word) returns (env1: Env, env2: Env)
    requires OneObject(facts, gep1, v2) && i < |VarsBetween(facts, gep1, v2)|
    requires AllOpaque(VarsBetween(facts, gep1, v2))
    ensures Related(facts, env1, env2) && env1.objects == env2.objects
    ensures Cong(MODULUS, Address(gep1, env1) - Address(v2, env2),
              OffsetBetween(facts, gep1, v2) + VarsBetween(facts, gep1, v2)[i].scale * y)
  {
    hide Cong, Address, DecomposeGEP, SubtractAll, SumScaled, EvalAll, Signed, Related, PlainFacts, SafePtr, Reduced;
    var d1, d2 := DecomposeGEP(facts, gep1), DecomposeGEP(facts, v2);
    Reduces(facts, gep1);
    Reduces(facts, v2);
    env1, env2 := OneEntryCounts(facts, d1.form.vars, d2.form.vars, i, y, map[]);
    ApartIs(facts, gep1, v2, env1, env2, VarsBetween(facts, gep1, v2)[i].scale * y);
  }

  lemma BetweenIs(facts: Facts, gep1: Ptr, v2: Ptr)
    ensures OffsetBetween(facts, gep1, v2)
            == Signed(DecomposeGEP(facts, gep1).form.offset - DecomposeGEP(facts, v2).form.offset)
  {
  }

  lemma SameObject(facts: Facts, gep1: Ptr, v2: Ptr, env1: Env, env2: Env)
    requires OneObject(facts, gep1, v2) && env1.objects == env2.objects
    ensures var b1, b2 := DecomposeGEP(facts, gep1).base, DecomposeGEP(facts, v2).base;
            Cong(MODULUS, Address(b1, env1), Address(b2, env2))
  {
    hide Cong, DecomposeGEP;
    CongSame(MODULUS, Address(DecomposeGEP(facts, gep1).base, env1));
  }

  lemma ApartIs(facts: Facts, gep1: Ptr, v2: Ptr, env1: Env, env2: Env, s: int)
    requires OneObject(facts, gep1, v2) && Related(facts, env1, env2) && env1.objects == env2.objects
    requires var vars1, vars2 := DecomposeGEP(facts, gep1).form.vars, DecomposeGEP(facts, v2).form.vars;
             Cong(MODULUS, s, SumScaled(vars1, EvalAll(vars1, env1.vals)) - SumScaled(vars2, EvalAll(vars2, env2.vals)))
    ensures Cong(MODULUS, Address(gep1, env1) - Address(v2, env2), OffsetBetween(facts, gep1, v2) + s)
  {
    hide Cong, DecomposeGEP, SumScaled, EvalAll, Signed, Related, PlainFacts, SafePtr, AllOpaque, Reduced, Scaled,
         Address, OffsetBetween, IsSigned;
    RelatedParts(facts, env1, env2);
    SameObject(facts, gep1, v2, env1, env2);
    var d1, d2 := DecomposeGEP(facts, gep1), DecomposeGEP(facts, v2);
    AddressExact(facts, gep1, env1);
    AddressExact(facts, v2, env2);
    assert OffsetBetween(facts, gep1, v2) == Signed(d1.form.offset - d2.form.offset) by {
      BetweenIs(facts, gep1, v2);
    }
    Difference(Address(gep1, env1), Address(v2, env2), Address(d1.base, env1), Address(d2.base, env2), d1.form.offset,
      d2.form.offset, SumScaled(d1.form.vars, EvalAll(d1.form.vars, env1.vals)),
      SumScaled(d2.form.vars, EvalAll(d2.form.vars, env2.vals)), s);
  }

  /** Without variables in the difference. */
  lemma ApartByConstant(facts: Facts, gep1: Ptr, v2: Ptr) returns (env: Env)
    requires OneObject(facts, gep1, v2)
    ensures Related(facts, env, env)
    ensures Cong(MODULUS, Address(gep1, env) - Address(v2, env), OffsetBetween(facts, gep1, v2) + 0)
  {
    hide Cong, Address, DecomposeGEP, SumScaled, EvalAll, Signed, Related, PlainFacts, SafePtr;
    env := Env(map[], map[]);
    SameVals(facts, env);
    Reduces(facts, gep1);
    Reduces(facts, v2);
    SumOfVariable(DecomposeGEP(facts, gep1).form.vars, 0, 0);
    SumOfVariable(DecomposeGEP(facts, v2).form.vars, 0, 0);
    CongSame(MODULUS, 0);
    ApartIs(facts, gep1, v2, env, env, 0);
  }

  /** "No alias" for one object and accesses of known sizes exactly if they are disjoint for all values of the
      variables; a variable counts as one if it is known to be the same in both pointers, and else as two. */
  lemma NoAliasExact(facts: Facts, gep1: Ptr, size1: Word, v2: Ptr, size2: Word, precise: Alias)
    requires OneObject(facts, gep1, v2) && 0 < size1 < HALF && 0 < size2 < HALF
    ensures AliasGepAnswer(facts, gep1, size1, v2, size2, MustAlias, precise) == NoAlias
            <==> AlwaysDisjoint(facts, gep1, size1, v2, size2)
  {
    hide Cong, Address, Decide, Decompose, SubtractAll, Related, PlainFacts, SafePtr, Disjoint, AllOpaque, Scaled,
         OffsetBetween, VarsBetween, AliasGepAnswer;
    AnswerIs(facts, gep1, size1, v2, size2, precise);
    var offset, vars := OffsetBetween(facts, gep1, v2), VarsBetween(facts, gep1, v2);
    if Decide(offset, vars, size1, size2) == NoAlias {
      forall env1, env2 | Related(facts, env1, env2) && env1.objects == env2.objects
        ensures Disjoint(Address(gep1, env1), size1, Address(v2, env2), size2)
      {
        OverOneObject(facts, gep1, size1, v2, size2, precise, env1, env2);
      }
    } else if vars == [] {
      var env := ApartByConstant(facts, gep1, v2);
      ConstantMeets(offset, size1, size2, Address(gep1, env), Address(v2, env));
    } else {
      var i, y := VariableMeets(offset, vars, size1, size2);
      var env1, env2 := ApartBy(facts, gep1, v2, i, y);
      assert !Disjoint(Address(gep1, env1), size1, Address(v2, env2), size2);
    }
  }

  /** Where a size is not known, "no alias" is given for one difference only: a constant one that takes the first
      pointer behind the access through the second. */
  lemma UnknownSizes(facts: Facts, gep1: Ptr, size1: Word, v2: Ptr, size2: Word, precise: Alias)
    requires gep1.Gep? && v2.Gep? && (size1 == UNKNOWN_SIZE || size2 == UNKNOWN_SIZE)
    requires !DecomposeGEP(facts, gep1).maxLookupReached && !DecomposeGEP(facts, v2).maxLookupReached
    ensures AliasGepAnswer(facts, gep1, size1, v2, size2, MustAlias, precise) == NoAlias
            <==> VarsBetween(facts, gep1, v2) == []
                 && OffsetBetween(facts, gep1, v2) >= size2 && 0 < OffsetBetween(facts, gep1, v2)
  {
    hide Decompose, SubtractAll;
    SignedCong(DecomposeGEP(facts, gep1).form.offset - DecomposeGEP(facts, v2).form.offset);
  }

  lemma ConstantMeets(offset: int, size1: Word, size2: Word, a1: int, a2: int)
    requires IsSigned(offset) && Cong(MODULUS, a1 - a2, offset + 0) && Decide(offset, [], size1, size2) != NoAlias
    requires 0 < size1 != UNKNOWN_SIZE && 0 < size2 != UNKNOWN_SIZE
    ensures !Disjoint(a1, size1, a2, size2)
  {
    hide Cong, Disjoint;
    MeetApart(a1, a2, offset, size1, size2);
  }

  lemma OverOneObject(facts: Facts, gep1: Ptr, size1: Word, v2: Ptr, size2: Word, precise: Alias, env1: Env, env2: Env)
    requires OneObject(facts, gep1, v2) && Related(facts, env1, env2) && env1.objects == env2.objects
    ensures var r := AliasGepAnswer(facts, gep1, size1, v2, size2, MustAlias, precise);
            && AnswerHolds(r, Address(gep1, env1), size1, Address(v2, env2), size2)
            && (r == NoAlias && size1 < HALF && size2 < HALF ==>
                  Disjoint(Address(gep1, env1), size1, Address(v2, env2), size2))
  {
    hide Cong, DecomposeGEP, Related, PlainFacts, SafePtr, Disjoint, AllOpaque, AliasGepAnswer;
    CongSame(MODULUS, Address(DecomposeGEP(facts, gep1).base, env1));
    OneBaseSound(facts, gep1, size1, v2, size2, precise, env1, env2);
  }

  /** "Must alias" exactly if the addresses are equal for all values of the variables. */
  lemma MustAliasExact(facts: Facts, gep1: Ptr, size1: Word, v2: Ptr, size2: Word, precise: Alias)
    requires OneObject(facts, gep1, v2) && size1 != UNKNOWN_SIZE && size2 != UNKNOWN_SIZE
    ensures AliasGepAnswer(facts, gep1, size1, v2, size2, MustAlias, precise) == MustAlias
            <==> AlwaysEqual(facts, gep1, v2)
  {
    hide Cong, Address, Modulus, Decompose, SubtractAll, Related, PlainFacts, SafePtr, Disjoint, AllOpaque,
         OffsetBetween, VarsBetween, AliasGepAnswer;
    AnswerIs(facts, gep1, size1, v2, size2, precise);
    var offset, vars := OffsetBetween(facts, gep1, v2), VarsBetween(facts, gep1, v2);
    if Decide(offset, vars, size1, size2) == MustAlias {
      forall env1, env2 | Related(facts, env1, env2) && env1.objects == env2.objects
        ensures Cong(MODULUS, Address(gep1, env1), Address(v2, env2))
      {
        OverOneObject(facts, gep1, size1, v2, size2, precise, env1, env2);
      }
    } else if vars == [] {
      var env := ApartByConstant(facts, gep1, v2);
      NotEqual(Address(gep1, env), Address(v2, env), offset + 0);
    } else {
      var y: Word := if offset == 0 then 1 else 0;
      var env1, env2 := ApartBy(facts, gep1, v2, 0, y);
      NotEqual(Address(gep1, env1), Address(v2, env2), offset + vars[0].scale * y);
    }
  }

  lemma NotEqual(a1: int, a2: int, d: int)
    requires Cong(MODULUS, a1 - a2, d) && d != 0 && IsSigned(d)
    ensures !Cong(MODULUS, a1, a2)
  {
    hide Cong;
    if Cong(MODULUS, a1, a2) {
      CongSame(MODULUS, a2);
      CongAdd(MODULUS, a1, a2, a2, a2);
      CongSym(MODULUS, a1 - a2, d);
      CongTrans(MODULUS, d, a1 - a2, 0);
      CongClose(MODULUS, d, 0);
    }
  }
}
