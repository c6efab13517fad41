// Addresses as linear forms: an index is split into scale * variable + offset, a chain of
// getelementptr into a base, a constant offset and scaled variables.
module GepLinear {
  import opened MachineIntegers

  datatype BinOp = AddOp | MulOp | ShlOp | OrOp

  /** An integer value: an operation with a constant on the right, a sign or zero extension from fewer bits,
      or anything else.  `Wide` is a narrow value together with the way in which it is to be extended, as
      the variables of a form are. */
  datatype Expr =
    | Opaque(id: int)
    | Binary(id: int, op: BinOp, of: Expr, k: Word)
    | Cast(id: int, signed: bool, width: nat, of: Expr)
    | Wide(signed: bool, width: nat, of: Expr)

  type Vals = map<int, int>

  /** As an integer of so many bits. */
  function Wrap(w: nat, x: int): (r: nat)
    ensures r < Pow2(w)
  {
    x % Pow2(w)
  }

  /** As a signed integer of so many bits. */
  function SignedAt(w: nat, x: int): int {
    if 2 * Wrap(w, x) >= Pow2(w) then Wrap(w, x) - Pow2(w) else Wrap(w, x)
  }

  function Extend(signed: bool, width: nat, x: int): int {
    if signed then SignedAt(width, x) else x
  }

  /** The value as an integer of w bits. */
  function EvalAt(e: Expr, w: nat, env: Vals): (r: nat)
    ensures r < Pow2(w)
  {
    match e
    case Opaque(id) => Wrap(w, if id in env then env[id] else 0)
    case Binary(_, op, of, k) => Wrap(w, Operate(op, EvalAt(of, w, env), k))
    case Cast(_, signed, width, of) => Wrap(w, Extend(signed, width, EvalAt(of, width, env)))
    case Wide(signed, width, of) => Wrap(w, Extend(signed, width, EvalAt(of, width, env)))
  }

  function Operate(op: BinOp, x: nat, k: nat): nat {
    match op
    case AddOp => x + k
    case MulOp => x * k
    case ShlOp => x * Pow2(k)
    case OrOp => BitOr(x, k)
  }

  function Eval(e: Expr, env: Vals): (r: Word) {
    Pow2Is64();
    EvalAt(e, 64, env)
  }

  /** Extensions are from at least one bit to more bits. */
  predicate Typed(e: Expr, w: nat) {
    match e
    case Opaque(_) => true
    case Binary(_, _, of, _) => Typed(of, w)
    case Cast(_, _, width, of) => 1 <= width < w && Typed(of, width)
    case Wide(_, width, of) => 1 <= width < w && Typed(of, width)
  }

  /** What other analyses know: the bits of a value of so many bits that are zero, and the values that are
      the same in both pointers even if a loop is involved. */
  datatype Facts = Facts(masked: (Expr, nat, Word) -> bool, same: Expr -> bool)

  ghost predicate MaskedHolds(facts: Facts, env: Vals) {
    forall e: Expr, w: nat, k: Word {:trigger facts.masked(e, w, k)} ::
      facts.masked(e, w, k) ==> BitAnd(EvalAt(e, w, env), k) == 0
  }

  // ---------------------------------------------------------------- indices

  const MAX_DEPTH := 6

  datatype Extension = NotExtended | SignExt | ZeroExt

  /** scale * v + offset in integers of some width; v has `width` bits and is to be extended. */
  datatype Linear = Linear(v: Expr, ext: Extension, width: nat, scale: nat, offset: nat)

  /** Is an extension of this kind looked through, given the one that applies already? */
  predicate LooksThrough(signed: bool, ext: Extension) {
    if signed then ext != ZeroExt else ext != SignExt
  }

  function KindOf(signed: bool): Extension {
    if signed then SignExt else ZeroExt
  }

  /** The form after an operation of w bits. */
  function Operated(l: Linear, op: BinOp, k: nat, w: nat): Linear {
    match op
    case MulOp => l.(offset := Wrap(w, l.offset * k), scale := Wrap(w, l.scale * k))
    case ShlOp => l.(offset := Wrap(w, l.offset * Pow2(k)), scale := Wrap(w, l.scale * Pow2(k)))
    case _ => l.(offset := Wrap(w, l.offset + k))
  }

  /** The value has w bits. */
  function GetLinearExpression(facts: Facts, e: Expr, w: nat, ext: Extension, depth: nat): Linear
    requires depth <= MAX_DEPTH
    decreases MAX_DEPTH - depth
  {
    if depth == MAX_DEPTH then Linear(e, ext, w, 1, 0)
    else
      match e
      case Binary(_, op, of, k) =>
        if op.OrOp? && !facts.masked(of, w, k) then Linear(e, ext, w, 1, 0)
        else
          Operated(GetLinearExpression(facts, of, w, ext, depth + 1), op, k, w)
      case Cast(_, signed, width, of) =>
        if LooksThrough(signed, ext) then GetLinearExpression(facts, of, width, KindOf(signed), depth + 1)
        else Linear(e, ext, w, 1, 0)
      case _ => Linear(e, ext, w, 1, 0)
  }

  /** The variable with its extension. */
  function VarOf(l: Linear): Expr {
    if l.ext == NotExtended then l.v else Wide(l.ext == SignExt, l.width, l.v)
  }

  /** The variable as an integer of w bits: extended, if an extension has been looked through. */
  function VarAt(l: Linear, w: nat, env: Vals): nat {
    if l.width == w then EvalAt(l.v, w, env) else Wrap(w, Extend(l.ext == SignExt, l.width, EvalAt(l.v, l.width, env)))
  }

  /** Every extension that is looked through has nothing but the variable below it. */
  predicate Safe(facts: Facts, e: Expr, w: nat, ext: Extension, depth: nat)
    requires depth <= MAX_DEPTH
    decreases MAX_DEPTH - depth
  {
    if depth == MAX_DEPTH then true
    else
      match e
      case Binary(_, op, of, k) => (op.OrOp? && !facts.masked(of, w, k)) || Safe(facts, of, w, ext, depth + 1)
      case Cast(_, signed, width, of) =>
        LooksThrough(signed, ext) ==>
          var l := GetLinearExpression(facts, of, width, KindOf(signed), depth + 1);
          l.scale == 1 && l.offset == 0 && Safe(facts, of, width, KindOf(signed), depth + 1)
      case _ => true
  }

  lemma WrapCong(w: nat, x: int)
    ensures Cong(Pow2(w), Wrap(w, x), x)
  {
    CongMod(Pow2(w), x);
  }

  lemma ScaledCong(w: nat, x: int, s: int, v: int, o: int, f: int)
    requires Cong(Pow2(w), x, s * v + o)
    ensures Cong(Pow2(w), Wrap(w, x * f), Wrap(w, s * f) * v + Wrap(w, o * f))
  {
    hide Wrap, Pow2;
    var m := Pow2(w);
    CongMul(m, x, s * v + o, f);
    assert (s * v + o) * f == (s * f) * v + o * f;
    WrapCong(w, x * f);
    WrapCong(w, s * f);
    WrapCong(w, o * f);
    CongTrans(m, Wrap(w, x * f), x * f, (s * f) * v + o * f);
    CongMul(m, Wrap(w, s * f), s * f, v);
    CongAdd(m, Wrap(w, s * f) * v, (s * f) * v, Wrap(w, o * f), o * f);
    CongSym(m, Wrap(w, s * f) * v + Wrap(w, o * f), (s * f) * v + o * f);
    CongTrans(m, Wrap(w, x * f), (s * f) * v + o * f, Wrap(w, s * f) * v + Wrap(w, o * f));
  }

  lemma ShiftedCong(w: nat, x: int, s: int, v: int, o: int, k: int)
    requires Cong(Pow2(w), x, s * v + o)
    ensures Cong(Pow2(w), Wrap(w, x + k), s * v + Wrap(w, o + k))
  {
    hide Wrap, Pow2;
    var m := Pow2(w);
    WrapCong(w, x + k);
    WrapCong(w, o + k);
    CongSame(m, k);
    CongAdd(m, x, s * v + o, k, k);
    CongTrans(m, Wrap(w, x + k), x + k, s * v + o + k);
    CongSame(m, s * v);
    CongSym(m, Wrap(w, o + k), o + k);
    CongAdd(m, s * v, s * v, o + k, Wrap(w, o + k));
    CongTrans(m, Wrap(w, x + k), s * v + o + k, s * v + Wrap(w, o + k));
  }

  /** Which extension applies in the end, and to how many bits. */
  lemma {:induction false} LinearKind(facts: Facts, e: Expr, w: nat, ext: Extension, depth: nat)
    requires depth <= MAX_DEPTH && Typed(e, w) && w >= 1
    ensures var l := GetLinearExpression(facts, e, w, ext, depth);
            && 1 <= l.width <= w && (l.width == w ==> l.ext == ext) && (ext != NotExtended ==> l.ext == ext)
            && (l.width < w ==> l.ext != NotExtended)
    decreases MAX_DEPTH - depth
  {
    hide Wrap, Pow2;
    if depth < MAX_DEPTH {
      match e
      case Binary(_, op, of, k) => if !op.OrOp? || facts.masked(of, w, k) { LinearKind(facts, of, w, ext, depth + 1); }
      case Cast(_, signed, width, of) =>
        if LooksThrough(signed, ext) { LinearKind(facts, of, width, KindOf(signed), depth + 1); }
      case _ =>
    }
  }

  lemma ExactHere(w: nat, x: nat)
    ensures Cong(Pow2(w), x, 1 * x + 0)
  {
    CongSame(Pow2(w), x);
  }

  /** Extending twice in the same way is extending once. */
  lemma ExtendTwice(signed: bool, low: nat, w: nat, x: nat)
    requires 1 <= low < w && x < Pow2(low)
    ensures Extend(signed, w, Wrap(w, Extend(signed, low, x))) == Extend(signed, low, x)
  {
    hide Pow2;
    Pow2Grows(low + 1, w);
    TwicePow2(low);
    SmallWrap(low, x);
    var y := Extend(signed, low, x);
    if y >= 0 {
      SmallWrap(w, y);
    } else {
      ModIs(y, Pow2(w), -1, y + Pow2(w));
    }
    if signed { SmallWrap(w, Wrap(w, y)); }
  }

  lemma TwicePow2(k: nat)
    ensures Pow2(k + 1) == 2 * Pow2(k)
  {
  }

  lemma SmallWrap(w: nat, x: nat)
    requires x < Pow2(w)
    ensures Wrap(w, x) == x
  {
    ModIs(x, Pow2(w), 0, x);
  }

  /** The linear form has the value of the expression, modulo 2^w, whatever the variables are. */
  lemma {:induction false} LinearIsExact(facts: Facts, e: Expr, w: nat, ext: Extension, depth: nat, env: Vals)
    requires depth <= MAX_DEPTH && w >= 1 && Typed(e, w) && Safe(facts, e, w, ext, depth) && MaskedHolds(facts, env)
    ensures var l := GetLinearExpression(facts, e, w, ext, depth);
            Cong(Pow2(w), EvalAt(e, w, env), l.scale * VarAt(l, w, env) + l.offset)
    decreases MAX_DEPTH - depth
  {
    hide Wrap, Cong, Pow2, BitOr, BitAnd, Extend, Operate, Operated, VarAt;
    var l := GetLinearExpression(facts, e, w, ext, depth);
    if l == Linear(e, ext, w, 1, 0) {
      ExactHere(w, EvalAt(e, w, env));
      HereIs(l, w, env);
    } else {
      match e
      case Binary(_, op, of, k) =>
        LinearIsExact(facts, of, w, ext, depth + 1, env);
        OperationIsExact(op, EvalAt(of, w, env), k, GetLinearExpression(facts, of, w, ext, depth + 1), w, env);
      case Cast(_, signed, width, of) =>
        LinearIsExact(facts, of, width, KindOf(signed), depth + 1, env);
        LinearKind(facts, of, width, KindOf(signed), depth + 1);
        CastIsExact(l, of, signed, width, w, env);
        ExactHere(w, EvalAt(e, w, env));
    }
  }

  lemma HereIs(l: Linear, w: nat, env: Vals)
    requires l.width == w
    ensures VarAt(l, w, env) == EvalAt(l.v, w, env)
  {
  }

  lemma OperationIsExact(op: BinOp, x: nat, k: nat, l: Linear, w: nat, env: Vals)
    requires Cong(Pow2(w), x, l.scale * VarAt(l, w, env) + l.offset) && (op.OrOp? ==> BitAnd(x, k) == 0)
    ensures var l' := Operated(l, op, k, w);
            Cong(Pow2(w), Wrap(w, Operate(op, x, k)), l'.scale * VarAt(l', w, env) + l'.offset)
  {
    hide Wrap, Cong, Pow2, BitOr, BitAnd, Extend, EvalAt;
    var v := VarAt(l, w, env);
    match op {
      case AddOp => ShiftedCong(w, x, l.scale, v, l.offset, k);
      case OrOp =>
        OrAdds(x, k);
        ShiftedCong(w, x, l.scale, v, l.offset, k);
      case MulOp => ScaledCong(w, x, l.scale, v, l.offset, k);
      case ShlOp => ScaledCong(w, x, l.scale, v, l.offset, Pow2(k));
    }
  }

  /** An extension of nothing but the variable. */
  lemma CastIsExact(l: Linear, of: Expr, signed: bool, width: nat, w: nat, env: Vals)
    requires 1 <= l.width <= width < w && l.ext == KindOf(signed)
    requires Cong(Pow2(width), EvalAt(of, width, env), 1 * VarAt(l, width, env) + 0)
    ensures Wrap(w, Extend(signed, width, EvalAt(of, width, env))) == VarAt(l, w, env)
  {
    hide Cong, Pow2, Extend, Wrap;
    CongClose(Pow2(width), EvalAt(of, width, env), VarAt(l, width, env));
    if l.width < width {
      ExtendTwice(signed, l.width, width, EvalAt(l.v, l.width, env));
    }
  }

  // ---------------------------------------------------------------- scaled variables

  /** A variable times a signed 64-bit scale. */
  datatype VarIndex = VarIndex(v: Expr, scale: int)

  function SumScaled(vars: seq<VarIndex>, vals: seq<int>): int
    requires |vals| == |vars|
  {
    if vars == [] then 0
    else SumScaled(vars[..|vars| - 1], vals[..|vars| - 1]) + vars[|vars| - 1].scale * vals[|vars| - 1]
  }

  function EvalAll(vars: seq<VarIndex>, env: Vals): (vals: seq<int>)
    ensures |vals| == |vars|
  {
    seq(|vars|, i requires 0 <= i < |vars| => Eval(vars[i].v, env))
  }

  function Without<T>(s: seq<T>, i: nat): seq<T>
    requires i < |s|
  {
    s[..i] + s[i + 1..]
  }

  lemma SumAppend(vars: seq<VarIndex>, vals: seq<int>, x: VarIndex, y: int)
    requires |vals| == |vars|
    ensures SumScaled(vars + [x], vals + [y]) == SumScaled(vars, vals) + x.scale * y
  {
    assert (vars + [x])[..|vars|] == vars && (vals + [y])[..|vars|] == vals;
  }

  lemma {:induction false} SumWithout(vars: seq<VarIndex>, vals: seq<int>, i: nat)
    requires |vals| == |vars| && i < |vars|
    ensures SumScaled(vars, vals) == SumScaled(Without(vars, i), Without(vals, i)) + vars[i].scale * vals[i]
    decreases |vars|
  {
    var n := |vars| - 1;
    if i == n {
      assert Without(vars, i) == vars[..n] && Without(vals, i) == vals[..n];
    } else {
      SumWithout(vars[..n], vals[..n], i);
      assert Without(vars, i) == Without(vars[..n], i) + [vars[n]];
      assert Without(vals, i) == Without(vals[..n], i) + [vals[n]];
      SumAppend(Without(vars[..n], i), Without(vals[..n], i), vars[n], vals[n]);
    }
  }

  lemma {:induction false} SumUpdate(vars: seq<VarIndex>, vals: seq<int>, i: nat, s: int)
    requires |vals| == |vars| && i < |vars|
    ensures SumScaled(vars[i := vars[i].(scale := s)], vals) == SumScaled(vars, vals) + (s - vars[i].scale) * vals[i]
  {
    var vars' := vars[i := vars[i].(scale := s)];
    SumWithout(vars, vals, i);
    SumWithout(vars', vals, i);
    assert Without(vars', i) == Without(vars, i);
  }

  // ---------------------------------------------------------------- pointers

  datatype Index = Field(number: nat, offset: Word) | Element(size: Word, at: Subscript)

  /** A constant, or a value of so many bits, at most 64. */
  datatype Subscript = ConstIndex(k: int) | VarSubscript(e: Expr, width: nat)

  /** A pointer: an object; a cast, an alias or something that simplifies; or a getelementptr. */
  datatype Ptr = Object(id: int) | Through(to: Ptr) | Gep(base: Ptr, indices: seq<Index>, sized: bool)

  /** Where the objects are, and what the variables are. */
  datatype Env = Env(objects: map<int, int>, vals: Vals)

  /** A narrow subscript is sign-extended. */
  function IndexValue(e: Expr, width: nat, env: Vals): int {
    if width < 64 then SignedAt(width, EvalAt(e, width, env)) else Eval(e, env)
  }

  function IndexOffset(ix: Index, env: Vals): int {
    match ix
    case Field(number, offset) => if number == 0 then 0 else offset
    case Element(size, ConstIndex(k)) => size * k
    case Element(size, VarSubscript(e, width)) => size * IndexValue(e, width, env)
  }

  function OffsetSum(indices: seq<Index>, env: Vals): int {
    if indices == [] then 0 else IndexOffset(indices[0], env) + OffsetSum(indices[1..], env)
  }

  function Address(p: Ptr, env: Env): Word {
    match p
    case Object(id) => Unsigned(if id in env.objects then env.objects[id] else 0)
    case Through(to) => Address(to, env)
    case Gep(base, indices, _) => Unsigned(Address(base, env) + OffsetSum(indices, env.vals))
  }

  /** A constant offset and scaled variables. */
  datatype Form = Form(offset: int, vars: seq<VarIndex>)

  function FindVar(vars: seq<VarIndex>, v: Expr, i: nat): (r: nat)
    requires i <= |vars|
    ensures i <= r <= |vars| && (r < |vars| ==> vars[r].v == v) && forall j :: i <= j < r ==> vars[j].v != v
    decreases |vars| - i
  {
    if i == |vars| || vars[i].v == v then i else FindVar(vars, v, i + 1)
  }

  function IndexForm(facts: Facts, e: Expr, width: nat): Linear {
    GetLinearExpression(facts, e, width, if width < 64 then SignExt else NotExtended, 0)
  }

  /** The linear form of the subscript is exact: its extensions, and its own if it is narrow, have nothing
      but the variable below them. */
  predicate SafeIndex(facts: Facts, ix: Index) {
    ix.Element? && ix.at.VarSubscript? ==>
      var e, width := ix.at.e, ix.at.width;
      && 1 <= width <= 64 && Typed(e, width) && Safe(facts, e, width, if width < 64 then SignExt else NotExtended, 0)
      && (width < 64 ==> width >= 2 && IndexForm(facts, e, width).scale == 1 && IndexForm(facts, e, width).offset == 0)
  }

  function AddIndex(facts: Facts, f: Form, ix: Index): Form {
    match ix
    case Field(number, offset) => if number == 0 then f else f.(offset := Signed(f.offset + offset))
    case Element(size, ConstIndex(k)) => if k == 0 then f else f.(offset := Signed(f.offset + size * k))
    case Element(size, VarSubscript(e, width)) =>
      var l := IndexForm(facts, e, width);
      AddVariable(f.(offset := Signed(f.offset + SignedAt(width, l.offset) * size)), VarOf(l),
        Unsigned(size * SignedAt(width, l.scale)))
  }

  /** Adds scale * v, together with what there is of v. */
  function AddVariable(f: Form, v: Expr, scale: Word): Form {
    var i := FindVar(f.vars, v, 0);
    var sum := if i < |f.vars| then Unsigned(scale + f.vars[i].scale) else scale;
    var rest := if i < |f.vars| then Without(f.vars, i) else f.vars;
    f.(vars := if sum == 0 then rest else rest + [VarIndex(v, Signed(sum))])
  }

  function AddIndices(facts: Facts, f: Form, indices: seq<Index>): Form
    decreases |indices|
  {
    if indices == [] then f else AddIndices(facts, AddIndex(facts, f, indices[0]), indices[1..])
  }

  /** Every variable occurs once, with a scale that is not zero. */
  ghost predicate Reduced(vars: seq<VarIndex>) {
    && (forall i :: 0 <= i < |vars| ==> vars[i].scale != 0 && IsSigned(vars[i].scale))
    && (forall i, j :: 0 <= i < j < |vars| ==> vars[i].v != vars[j].v)
  }

  function Value(f: Form, env: Vals): int {
    f.offset + SumScaled(f.vars, EvalAll(f.vars, env))
  }

  lemma AddVariableReduced(f: Form, v: Expr, scale: Word)
    requires Reduced(f.vars)
    ensures Reduced(AddVariable(f, v, scale).vars)
  {
  }

  lemma EvalAllWithout(vars: seq<VarIndex>, i: nat, env: Vals)
    requires i < |vars|
    ensures EvalAll(Without(vars, i), env) == Without(EvalAll(vars, env), i)
  {
  }

  lemma EvalAllAppend(vars: seq<VarIndex>, x: VarIndex, env: Vals)
    ensures EvalAll(vars + [x], env) == EvalAll(vars, env) + [Eval(x.v, env)]
  {
  }

  /** Congruence of what a variable with a wrapped scale contributes. */
  lemma ScaleCong(s: int, t: int, y: int)
    requires Cong(MODULUS, s, t)
    ensures Cong(MODULUS, s * y, t * y)
  {
    CongMul(MODULUS, s, t, y);
  }

  /** The scale of v in a form, and what is left without it. */
  function ScaleIn(f: Form, v: Expr): int {
    var i := FindVar(f.vars, v, 0);
    if i < |f.vars| then f.vars[i].scale else 0
  }

  function RestOf(f: Form, v: Expr): seq<VarIndex> {
    var i := FindVar(f.vars, v, 0);
    if i < |f.vars| then Without(f.vars, i) else f.vars
  }

  function NewScale(f: Form, v: Expr, scale: Word): int {
    var i := FindVar(f.vars, v, 0);
    var sum := if i < |f.vars| then Unsigned(scale + f.vars[i].scale) else scale;
    if sum == 0 then 0 else Signed(sum)
  }

  lemma ValueSplits(f: Form, v: Expr, env: Vals)
    ensures Value(f, env)
            == f.offset + SumScaled(RestOf(f, v), EvalAll(RestOf(f, v), env)) + ScaleIn(f, v) * Eval(v, env)
  {
    hide Eval;
    var i := FindVar(f.vars, v, 0);
    if i < |f.vars| {
      EvalAllWithout(f.vars, i, env);
      SumWithout(f.vars, EvalAll(f.vars, env), i);
    }
  }

  lemma ValueAdded(f: Form, v: Expr, scale: Word, env: Vals)
    ensures Value(AddVariable(f, v, scale), env)
            == f.offset + SumScaled(RestOf(f, v), EvalAll(RestOf(f, v), env)) + NewScale(f, v, scale) * Eval(v, env)
  {
    hide Eval, Signed, Unsigned, SumScaled;
    var rest := RestOf(f, v);
    var x := VarIndex(v, NewScale(f, v, scale));
    EvalAllAppend(rest, x, env);
    SumAppend(rest, EvalAll(rest, env), x, Eval(v, env));
  }

  lemma NewScaleCong(f: Form, v: Expr, scale: Word)
    ensures Cong(MODULUS, NewScale(f, v, scale), scale + ScaleIn(f, v))
  {
    hide Signed, Unsigned, Cong;
    var i := FindVar(f.vars, v, 0);
    var sum := if i < |f.vars| then Unsigned(scale + f.vars[i].scale) else scale;
    if i < |f.vars| {
      SignedCong(scale + f.vars[i].scale);
    } else {
      CongSame(MODULUS, sum);
    }
    SignedCong(sum);
    CongTrans(MODULUS, Signed(sum), sum, scale + ScaleIn(f, v));
  }

  lemma AddVariableExact(f: Form, v: Expr, scale: Word, env: Vals)
    ensures Cong(MODULUS, Value(AddVariable(f, v, scale), env), Value(f, env) + scale * Eval(v, env))
  {
    hide Cong, Eval, AddVariable, NewScale, ScaleIn, RestOf, Value, SumScaled, EvalAll;
    ValueSplits(f, v, env);
    ValueAdded(f, v, scale, env);
    NewScaleCong(f, v, scale);
    var y := Eval(v, env);
    var rest := f.offset + SumScaled(RestOf(f, v), EvalAll(RestOf(f, v), env));
    ScaleCong(NewScale(f, v, scale), scale + ScaleIn(f, v), y);
    CongSame(MODULUS, rest);
    CongAdd(MODULUS, rest, rest, NewScale(f, v, scale) * y, (scale + ScaleIn(f, v)) * y);
    assert (scale + ScaleIn(f, v)) * y == scale * y + ScaleIn(f, v) * y;
  }

  lemma OffsetExact(offset: int, more: int)
    ensures Cong(MODULUS, Signed(offset + more), offset + more)
  {
    SignedCong(offset + more);
  }

  lemma SignedAt64(x: int)
    ensures Cong(MODULUS, SignedAt(64, x), x)
  {
    hide Pow2;
    Pow2Is64();
    var y := Wrap(64, x);
    WrapCong(64, x);
    CongBy(MODULUS, y - MODULUS, y, -1);
    CongTrans(MODULUS, y - MODULUS, y, x);
  }

  lemma SmallSigned(width: nat)
    requires width >= 2
    ensures SignedAt(width, 1) == 1 && SignedAt(width, 0) == 0
  {
    hide Pow2;
    Pow2Grows(2, width);
    assert Pow2(2) == 4 by { TwicePow2(1); TwicePow2(0); NoPow2(); }
    SmallWrap(width, 1);
    SmallWrap(width, 0);
  }

  lemma NoPow2()
    ensures Pow2(0) == 1
  {
  }

  /** The form of a subscript has its value. */
  lemma IndexIsExact(facts: Facts, size: Word, e: Expr, width: nat, env: Vals)
    requires SafeIndex(facts, Element(size, VarSubscript(e, width))) && MaskedHolds(facts, env)
    ensures var l := IndexForm(facts, e, width);
            Cong(MODULUS, IndexValue(e, width, env), SignedAt(width, l.scale) * Eval(VarOf(l), env)
                + SignedAt(width, l.offset))
  {
    hide Cong, Wrap, SignedAt, Pow2, MaskedHolds, Safe;
    var ext := if width < 64 then SignExt else NotExtended;
    var l := IndexForm(facts, e, width);
    LinearKind(facts, e, width, ext, 0);
    LinearIsExact(facts, e, width, ext, 0, env);
    Pow2Is64();
    if width == 64 {
      WideIsExact(l, EvalAt(e, 64, env), env);
    } else {
      SmallSigned(width);
      NarrowIsExact(l, e, width, env);
    }
  }

  lemma WideIsExact(l: Linear, x: int, env: Vals)
    requires 1 <= l.width <= 64 && (l.width == 64 <==> l.ext == NotExtended)
    requires Cong(MODULUS, x, l.scale * VarAt(l, 64, env) + l.offset)
    ensures Cong(MODULUS, x, SignedAt(64, l.scale) * Eval(VarOf(l), env) + SignedAt(64, l.offset))
  {
    hide Cong, Wrap, SignedAt, Pow2;
    var y := VarAt(l, 64, env);
    assert Eval(VarOf(l), env) == y;
    SignedAt64(l.scale);
    SignedAt64(l.offset);
    CongMul(MODULUS, SignedAt(64, l.scale), l.scale, y);
    CongAdd(MODULUS, SignedAt(64, l.scale) * y, l.scale * y, SignedAt(64, l.offset), l.offset);
    CongSym(MODULUS, SignedAt(64, l.scale) * y + SignedAt(64, l.offset), l.scale * y + l.offset);
    CongTrans(MODULUS, x, l.scale * y + l.offset, SignedAt(64, l.scale) * y + SignedAt(64, l.offset));
  }

  lemma NarrowIsExact(l: Linear, e: Expr, width: nat, env: Vals)
    requires 1 <= l.width <= width < 64 && l.ext == SignExt
    requires Cong(Pow2(width), EvalAt(e, width, env), 1 * VarAt(l, width, env) + 0)
    ensures Cong(MODULUS, SignedAt(width, EvalAt(e, width, env)), 1 * Eval(VarOf(l), env) + 0)
  {
    hide Cong, Wrap, SignedAt, Pow2;
    Pow2Is64();
    CongClose(Pow2(width), EvalAt(e, width, env), VarAt(l, width, env));
    var x := EvalAt(l.v, l.width, env);
    if l.width < width {
      ExtendTwice(true, l.width, width, x);
    }
    assert SignedAt(width, EvalAt(e, width, env)) == SignedAt(l.width, x);
    assert Eval(VarOf(l), env) == Wrap(64, SignedAt(l.width, x));
    WrapCong(64, SignedAt(l.width, x));
    CongSym(MODULUS, Wrap(64, SignedAt(l.width, x)), SignedAt(l.width, x));
  }

  /** What a scaled index adds to the offset and to its variable. */
  lemma TermCong(size: Word, s: int, o: int, y: int, x: int)
    requires Cong(MODULUS, x, s * y + o)
    ensures Cong(MODULUS, Unsigned(size * s) * y + o * size, size * x)
  {
    hide Cong, Unsigned;
    SignedCong(size * s);
    CongMul(MODULUS, Unsigned(size * s), size * s, y);
    CongSame(MODULUS, o * size);
    CongAdd(MODULUS, Unsigned(size * s) * y, size * s * y, o * size, o * size);
    CongMul(MODULUS, x, s * y + o, size);
    assert size * (s * y + o) == size * s * y + o * size by {
      assert size * (s * y) == size * s * y;
    }
    CongSym(MODULUS, size * x, size * (s * y + o));
    CongTrans(MODULUS, Unsigned(size * s) * y + o * size, size * (s * y + o), size * x);
  }

  lemma AddVarIndexExact(facts: Facts, f: Form, size: Word, e: Expr, width: nat, env: Vals)
    requires SafeIndex(facts, Element(size, VarSubscript(e, width))) && MaskedHolds(facts, env)
    ensures Cong(MODULUS, Value(AddIndex(facts, f, Element(size, VarSubscript(e, width))), env),
              Value(f, env) + size * IndexValue(e, width, env))
  {
    hide Cong, Signed, Unsigned, MaskedHolds, Eval, AddVariable, IndexForm, SumScaled, EvalAll, SafeIndex, IndexValue,
         SignedAt, VarOf;
    var ix := Element(size, VarSubscript(e, width));
    var vars := SumScaled(f.vars, EvalAll(f.vars, env));
    CongSame(MODULUS, vars);
    var l := IndexForm(facts, e, width);
    var s, o, x := SignedAt(width, l.scale), SignedAt(width, l.offset), IndexValue(e, width, env);
    var g := f.(offset := Signed(f.offset + o * size));
    var scale := Unsigned(size * s);
    var y := Eval(VarOf(l), env);
    IndexIsExact(facts, size, e, width, env);
    AddVariableExact(g, VarOf(l), scale, env);
    OffsetExact(f.offset, o * size);
    CongAdd(MODULUS, g.offset, f.offset + o * size, vars, vars);
    TermCong(size, s, o, y, x);
    CongSame(MODULUS, scale * y);
    CongAdd(MODULUS, Value(g, env), f.offset + o * size + vars, scale * y, scale * y);
    CongTrans(MODULUS, Value(AddIndex(facts, f, ix), env), Value(g, env) + scale * y,
      f.offset + o * size + vars + scale * y);
    CongSame(MODULUS, f.offset + vars);
    CongAdd(MODULUS, f.offset + vars, f.offset + vars, scale * y + o * size, size * x);
    CongTrans(MODULUS, Value(AddIndex(facts, f, ix), env), f.offset + o * size + vars + scale * y,
      f.offset + vars + size * x);
  }

  /** One index: the form has grown by the offset of the index. */
  lemma AddIndexExact(facts: Facts, f: Form, ix: Index, env: Vals)
    requires SafeIndex(facts, ix) && MaskedHolds(facts, env)
    ensures Cong(MODULUS, Value(AddIndex(facts, f, ix), env), Value(f, env) + IndexOffset(ix, env))
  {
    hide Cong, Signed, Unsigned, MaskedHolds, Eval, AddVariable, IndexForm, SumScaled, EvalAll, SafeIndex, IndexValue;
    var vars := SumScaled(f.vars, EvalAll(f.vars, env));
    CongSame(MODULUS, vars);
    match ix
    case Field(number, offset) =>
      if number == 0 {
        CongSame(MODULUS, Value(f, env));
      } else {
        OffsetExact(f.offset, offset);
        CongAdd(MODULUS, Signed(f.offset + offset), f.offset + offset, vars, vars);
      }
    case Element(size, ConstIndex(k)) =>
      if k == 0 {
        CongSame(MODULUS, Value(f, env));
      } else {
        OffsetExact(f.offset, size * k);
        CongAdd(MODULUS, Signed(f.offset + size * k), f.offset + size * k, vars, vars);
      }
    case Element(size, VarSubscript(e, width)) => AddVarIndexExact(facts, f, size, e, width, env);
  }
}
