// Sign and zero extensions in subscripts: exactly when looking through one is right, and what happens
// when it is not.
module GepExtensions {
  import opened MachineIntegers
  import opened GepLinear
  import opened BasicAliasAnalysis

  ghost predicate NoMasks(facts: Facts) {
    forall e: Expr, w: nat, k: Word {:trigger facts.masked(e, w, k)} :: !facts.masked(e, w, k)
  }

  // ---------------------------------------------------------------- one extension

  /** Below an operation nothing has been looked through if the variable is as wide. */
  lemma {:induction false} DirectSafe(facts: Facts, e: Expr, w: nat, ext: Extension, depth: nat)
    requires depth <= MAX_DEPTH && Typed(e, w) && w >= 1 && GetLinearExpression(facts, e, w, ext, depth).width == w
    ensures Safe(facts, e, w, ext, depth)
    decreases MAX_DEPTH - depth
  {
    hide Wrap, Pow2;
    if depth < MAX_DEPTH {
      match e
      case Binary(_, op, of, k) => if !op.OrOp? || facts.masked(of, w, k) { DirectSafe(facts, of, w, ext, depth + 1); }
      case Cast(_, signed, width, of) => if LooksThrough(signed,
        ext) { LinearKind(facts, of, width, KindOf(signed), depth + 1); }
      case _ =>
    }
  }

  lemma {:induction false} LinearBelow(facts: Facts, e: Expr, w: nat, ext: Extension, depth: nat)
    requires depth <= MAX_DEPTH && Typed(e, w) && w >= 1 && GetLinearExpression(facts, e, w, ext, depth).width == w
    ensures var l := GetLinearExpression(facts, e, w, ext, depth); l.scale < Pow2(w) && l.offset < Pow2(w)
    decreases MAX_DEPTH - depth
  {
    hide Wrap;
    if depth < MAX_DEPTH {
      match e
      case Binary(_, op, of, k) => if !op.OrOp? || facts.masked(of, w, k) { LinearBelow(facts, of, w, ext, depth + 1); }
      case Cast(_, signed, width, of) => if LooksThrough(signed,
        ext) { LinearKind(facts, of, width, KindOf(signed), depth + 1); }
      case _ =>
    }
  }

  /** The extended value of s * x + o against s times the extended x, plus o. */
  ghost predicate Right(signed: bool, width: nat, s: nat, o: nat, x: nat) {
    Cong(MODULUS, Extend(signed, width, Wrap(width, s * x + o)), s * Extend(signed, width, x) + o)
  }

  /** Nothing is added and the scale is one, or only a constant is left that has no sign. */
  predicate Trivial(signed: bool, width: nat, s: nat, o: nat) {
    (s == 1 && o == 0) || (s == 0 && (signed ==> 2 * o < Pow2(width)))
  }

  lemma TrivialRight(signed: bool, width: nat, s: nat, o: nat, x: nat)
    requires Trivial(signed, width, s, o) && x < Pow2(width) && o < Pow2(width)
    ensures Right(signed, width, s, o, x)
  {
    hide Pow2, Wrap;
    SmallWrap(width, x);
    SmallWrap(width, o);
    if s == 0 {
      assert s * x + o == o;
      CongSame(MODULUS, o);
    } else {
      assert s * x + o == x;
      CongSame(MODULUS, Extend(signed, width, x));
    }
  }

  lemma NotCong(v: int, width: nat)
    requires width < 64
    ensures !Cong(MODULUS, v - Pow2(width), v)
  {
    hide Pow2, Cong;
    Pow2Is64();
    Pow2Grows(width, 63);
    if Cong(MODULUS, v - Pow2(width), v) {
      CongClose(MODULUS, v - Pow2(width), v);
    }
  }

  lemma WrapDown(width: nat, v: nat)
    requires Pow2(width) <= v < 2 * Pow2(width)
    ensures Wrap(width, v) == v - Pow2(width)
  {
    hide Pow2;
    ModIs(v, Pow2(width), 1, v - Pow2(width));
  }

  /** A constant with its top bit set loses its sign. */
  lemma SignLost(width: nat, s: nat, o: nat)
    requires 1 <= width < 64 && o < Pow2(width) <= 2 * o
    ensures !Right(true, width, s, o, 0)
  {
    hide Pow2, Wrap;
    SmallWrap(width, o);
    SmallWrap(width, 0);
    assert s * 0 + o == o;
    assert s * Extend(true, width, 0) + o == o;
    NotCong(o, width);
  }

  /** The first multiple of s that brings o to t or above. */
  lemma FirstAbove(s: nat, o: nat, t: nat) returns (x: nat)
    requires s >= 1 && o < t && t >= 2 && !(s == 1 && o == 0)
    ensures x < t && t <= s * x + o < t + s
  {
    x := (t - o + s - 1) / s;
    DivMod(t - o + s - 1, s);
    assert x * s == s * x;
    if x >= t {
      if s >= 2 {
        MulMono(t, x, s);
        assert s * t >= 2 * t by { MulMono(2, s, t); }
        assert s * t == t + (s - 1) * t;
        MulMono(2, t, s - 1);
      }
    }
  }

  /** Where the narrow value wraps around and the wide one does not. */
  lemma WrapsAround(signed: bool, width: nat, s: nat, o: nat) returns (x: nat)
    requires 1 <= width < 64 && 1 <= s < Pow2(width) && !(s == 1 && o == 0)
    requires o < Pow2(width) && (signed ==> 2 * o < Pow2(width))
    ensures x < Pow2(width) && !Right(signed, width, s, o, x)
  {
    hide Pow2, Wrap, Cong;
    TwicePow2(width - 1);
    var p := Pow2(width);
    var t: nat := if signed then Pow2(width - 1) else p;
    if signed && width == 1 {
      OneBitOnly();
      assert false;
    }
    if width >= 2 { TwicePow2(width - 2); }
    x := FirstAbove(s, o, t);
    var v := s * x + o;
    SmallWrap(width, x);
    if v < p { SmallWrap(width, v); } else { WrapDown(width, v); }
    if signed { SmallWrap(width, Wrap(width, v)); }
    NotCong(v, width);
  }

  lemma OneBitOnly()
    ensures Pow2(1) == 2 && Pow2(0) == 1
  {
  }

  lemma RightIff(signed: bool, width: nat, s: nat, o: nat)
    requires 1 <= width < 64 && s < Pow2(width) && o < Pow2(width)
    ensures (forall x: nat :: x < Pow2(width) ==> Right(signed, width, s, o, x)) <==> Trivial(signed, width, s, o)
  {
    hide Pow2, Right;
    if Trivial(signed, width, s, o) {
      forall x: nat | x < Pow2(width)
        ensures Right(signed, width, s, o, x)
      {
        TrivialRight(signed, width, s, o, x);
      }
    } else if signed && 2 * o >= Pow2(width) {
      SignLost(width, s, o);
    } else {
      var x := WrapsAround(signed, width, s, o);
    }
  }

  /** What the code makes of an extension of something in an opaque variable, and of the variable. */
  lemma ExtensionIs(facts: Facts, e: Expr, env: Vals)
    requires e.Cast? && Typed(e, 64) && NoMasks(facts)
    requires var l := GetLinearExpression(facts, e.of, e.width, KindOf(e.signed), 1); l.v.Opaque? && l.width == e.width
    ensures var l := GetLinearExpression(facts, e, 64, NotExtended, 0);
            && l.width == e.width && l.v.Opaque? && VarOf(l) == Wide(e.signed, e.width, l.v)
            && l.scale < Pow2(e.width) && l.offset < Pow2(e.width)
            && EvalAt(e.of, e.width, env) == Wrap(e.width, l.scale * EvalAt(l.v, e.width, env) + l.offset)
  {
    hide Wrap, Cong, Pow2;
    var ext, w := KindOf(e.signed), e.width;
    var l := GetLinearExpression(facts, e.of, w, ext, 1);
    LinearKind(facts, e.of, w, ext, 1);
    DirectSafe(facts, e.of, w, ext, 1);
    LinearBelow(facts, e.of, w, ext, 1);
    LinearIsExact(facts, e.of, w, ext, 1, env);
    var v := l.scale * EvalAt(l.v, w, env) + l.offset;
    WrapCong(w, v);
    CongSym(Pow2(w), Wrap(w, v), v);
    CongTrans(Pow2(w), EvalAt(e.of, w, env), v, Wrap(w, v));
    CongClose(Pow2(w), EvalAt(e.of, w, env), Wrap(w, v));
  }

  lemma ExactIsRight(facts: Facts, e: Expr, env: Vals)
    requires e.Cast? && Typed(e, 64) && NoMasks(facts)
    requires var l := GetLinearExpression(facts, e.of, e.width, KindOf(e.signed), 1); l.v.Opaque? && l.width == e.width
    ensures var l := GetLinearExpression(facts, e, 64, NotExtended, 0);
            Cong(MODULUS, Eval(e, env), l.scale * Eval(VarOf(l), env) + l.offset)
            <==> Right(e.signed, e.width, l.scale, l.offset, EvalAt(l.v, e.width, env))
  {
    hide Wrap, Cong, Pow2, GetLinearExpression, NoMasks, Typed;
    Pow2Is64();
    ExtensionIs(facts, e, env);
    var l := GetLinearExpression(facts, e, 64, NotExtended, 0);
    var x := EvalAt(l.v, e.width, env);
    var n, y := Extend(e.signed, e.width, EvalAt(e.of, e.width, env)), Extend(e.signed, e.width, x);
    assert Eval(e, env) == Wrap(64, n) && Eval(VarOf(l), env) == Wrap(64, y);
    WrappedCong(n, y, l.scale, l.offset);
  }

  /** Wrapping both sides to 64 bits changes nothing. */
  lemma WrappedCong(n: int, y: int, s: int, o: int)
    ensures Cong(MODULUS, Wrap(64, n), s * Wrap(64, y) + o) <==> Cong(MODULUS, n, s * y + o)
  {
    hide Wrap, Cong, Pow2;
    Pow2Is64();
    WrapCong(64, n);
    WrapCong(64, y);
    CongSym(MODULUS, Wrap(64, n), n);
    CongMul(MODULUS, Wrap(64, y), y, s);
    CongSame(MODULUS, o);
    CongAdd(MODULUS, s * Wrap(64, y), s * y, o, o);
    CongSym(MODULUS, s * Wrap(64, y) + o, s * y + o);
    if Cong(MODULUS, Wrap(64, n), s * Wrap(64, y) + o) {
      CongTrans(MODULUS, n, Wrap(64, n), s * Wrap(64, y) + o);
      CongTrans(MODULUS, n, s * Wrap(64, y) + o, s * y + o);
    }
    if Cong(MODULUS, n, s * y + o) {
      CongTrans(MODULUS, Wrap(64, n), n, s * y + o);
      CongTrans(MODULUS, Wrap(64, n), s * y + o, s * Wrap(64, y) + o);
    }
  }

  /** Looking through one extension of operations on an opaque variable is right for every value of the
      variable if and only if the operations come to nothing, or to a constant that has no sign. */
  lemma ExtensionExactIff(facts: Facts, e: Expr)
    requires e.Cast? && Typed(e, 64) && NoMasks(facts)
    requires var l := GetLinearExpression(facts, e.of, e.width, KindOf(e.signed), 1); l.v.Opaque? && l.width == e.width
    ensures var l := GetLinearExpression(facts, e, 64, NotExtended, 0);
            (forall env {:trigger Eval(e, env)} ::
                Cong(MODULUS, Eval(e, env), l.scale * Eval(VarOf(l), env) + l.offset))
            <==> Trivial(e.signed, e.width, l.scale, l.offset)
  {
    hide Wrap, Cong, Pow2, GetLinearExpression, NoMasks, Right, Trivial, Eval, VarOf, EvalAt;
    var l := GetLinearExpression(facts, e, 64, NotExtended, 0);
    ExtensionIs(facts, e, map[]);
    RightIff(e.signed, e.width, l.scale, l.offset);
    if Trivial(e.signed, e.width, l.scale, l.offset) {
      forall env
        ensures Cong(MODULUS, Eval(e, env), l.scale * Eval(VarOf(l), env) + l.offset)
      {
        ExactIsRight(facts, e, env);
      }
    } else {
      var x: nat :| x < Pow2(e.width) && !Right(e.signed, e.width, l.scale, l.offset, x);
      var env := map[l.v.id := x];
      NarrowOpaque(l.v.id, x, e.width);
      ExactIsRight(facts, e, env);
      assert !Cong(MODULUS, Eval(e, env), l.scale * Eval(VarOf(l), env) + l.offset);
    }
  }

  lemma NarrowOpaque(id: int, x: nat, w: nat)
    requires x < Pow2(w)
    ensures EvalAt(Opaque(id), w, map[id := x]) == x
  {
    SmallWrap(w, x);
  }

  // ---------------------------------------------------------------- a wrong answer

  /** x - 1 in eight bits, and x, both sign-extended. */
  function OneLess(): Expr {
    Cast(2, true, 8, Binary(3, AddOp, Opaque(7), 255))
  }

  function Itself(): Expr {
    Cast(5, true, 8, Opaque(7))
  }

  function ByteVar(): Expr {
    Wide(true, 8, Opaque(7))
  }

  lemma Power8()
    ensures Pow2(8) == 256
  {
  }

  lemma FormsOfBoth(facts: Facts)
    ensures GetLinearExpression(facts, OneLess(), 64, NotExtended, 0) == Linear(Opaque(7), SignExt, 8, 1, 255)
    ensures GetLinearExpression(facts, Itself(), 64, NotExtended, 0) == Linear(Opaque(7), SignExt, 8, 1, 0)
  {
    hide Pow2;
    Power8();
    SmallWrap(8, 255);
    var l := Linear(Opaque(7), SignExt, 8, 1, 0);
    assert GetLinearExpression(facts, Opaque(7), 8, SignExt, 2) == l;
    assert GetLinearExpression(facts, Binary(3, AddOp, Opaque(7), 255), 8, SignExt, 1) == Operated(l, AddOp, 255, 8);
  }

  lemma SmallSigned64()
    ensures SignedAt(64, 0) == 0 && SignedAt(64, 1) == 1 && SignedAt(64, 255) == 255
  {
    hide Pow2;
    Pow2Is64();
    SmallWrap(64, 0);
    SmallWrap(64, 1);
    SmallWrap(64, 255);
  }

  lemma DecomposedForms(facts: Facts)
    ensures DecomposeGEP(facts, OneSubscript(1, OneLess()))
            == Decomposed(Object(1), Form(255, [VarIndex(ByteVar(), 1)]), false)
    ensures DecomposeGEP(facts, OneSubscript(1, Itself()))
            == Decomposed(Object(1), Form(0, [VarIndex(ByteVar(), 1)]), false)
  {
    hide GetLinearExpression, SignedAt, Decompose;
    FormsOfBoth(facts);
    SmallSigned64();
    OneSubscriptForm(facts, 1, OneLess());
    OneSubscriptForm(facts, 1, Itself());
    var f := Form(0, []);
    AddOne(facts, f, Element(1, VarSubscript(OneLess(), 64)));
    AddOne(facts, f, Element(1, VarSubscript(Itself(), 64)));
    assert [] + [VarIndex(ByteVar(), 1)] == [VarIndex(ByteVar(), 1)];
  }

  lemma AddOne(facts: Facts, f: Form, ix: Index)
    ensures AddIndices(facts, f, [ix]) == AddIndex(facts, f, ix)
  {
    hide AddIndex;
    assert [ix][1..] == [];
  }

  /** The values for x = 5. */
  lemma ByteValues()
    ensures Eval(OneLess(), map[7 := 5]) == 4 && Eval(Itself(), map[7 := 5]) == 5
  {
    hide Pow2;
    Power8();
    Pow2Is64();
    var env := map[7 := 5];
    SmallWrap(8, 5);
    assert EvalAt(Opaque(7), 8, env) == 5;
    WrapDown(8, 260);
    assert EvalAt(Binary(3, AddOp, Opaque(7), 255), 8, env) == 4;
    SmallWrap(8, 4);
    SmallWrap(64, 4);
    SmallWrap(64, 5);
  }

  lemma OneAddress(e: Expr, a: Word, env: Env)
    requires env.objects == map[1 := a] && a + Eval(e, env.vals) < MODULUS
    ensures Address(OneSubscript(1, e), env) == a + Eval(e, env.vals)
  {
    hide EvalAt;
    var indices := [Element(1, VarSubscript(e, 64))];
    assert indices[1..] == [] && OffsetSum(indices[1..], env.vals) == 0;
  }

  /** The offset of x - 1 is taken to be 255, not -1: accesses of four bytes at p + (x - 1) and at p + x, in
      eight bits and sign-extended, are said not to alias, although for x = 5 they overlap. */
  lemma ExtensionNoAliasWrong(facts: Facts, precise: Alias, a: Word)
    requires facts.same(ByteVar()) && a < HALF
    ensures var p, q := OneSubscript(1, OneLess()), OneSubscript(1, Itself());
            var env := Env(map[1 := a], map[7 := 5]);
            && AliasGepAnswer(facts, p, 4, q, 4, MustAlias, precise) == NoAlias && !SafePtr(facts, p)
            && Address(p, env) == a + 4 && Address(q, env) == a + 5 && !Disjoint(a + 4, 4, a + 5, 4)
  {
    hide Decompose, Disjoint, AddIndices, Eval, GetLinearExpression, Address;
    DecomposedForms(facts);
    FormsOfBoth(facts);
    ByteValues();
    OneAddress(OneLess(), a, Env(map[1 := a], map[7 := 5]));
    OneAddress(Itself(), a, Env(map[1 := a], map[7 := 5]));
    BothCancel(facts);
    OverlapByThree(a);
    NotSafe(facts);
  }

  lemma OverlapByThree(a: int)
    ensures !Disjoint(a + 4, 4, a + 5, 4)
  {
    hide Cong;
    CongSame(MODULUS, a + 5);
    assert Meets(a + 4, 1, a + 5, 0);
  }

  lemma BothCancel(facts: Facts)
    requires facts.same(ByteVar())
    ensures SubtractAll(facts, [VarIndex(ByteVar(), 1)], [VarIndex(ByteVar(), 1)]) == []
  {
    var vs := [VarIndex(ByteVar(), 1)];
    assert FindSame(facts, vs, ByteVar(), 0) == 0;
    assert Subtract(facts, vs, vs[0]) == [];
    assert vs[1..] == [];
  }

  lemma NotSafe(facts: Facts)
    ensures !SafePtr(facts, OneSubscript(1, OneLess()))
  {
    hide Pow2;
    Power8();
    SmallWrap(8, 255);
    var l := Linear(Opaque(7), SignExt, 8, 1, 0);
    assert GetLinearExpression(facts, Opaque(7), 8, SignExt, 2) == l;
    assert GetLinearExpression(facts, Binary(3, AddOp, Opaque(7), 255), 8, SignExt, 1) == Operated(l, AddOp, 255, 8);
    assert !Safe(facts, OneLess(), 64, NotExtended, 0);
    var indices := [Element(1, VarSubscript(OneLess(), 64))];
    assert !SafeIndex(facts, indices[0]);
  }
}
