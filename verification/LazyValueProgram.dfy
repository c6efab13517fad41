// Functions as LazyValueInfo sees them, and what it means to run one.
module LazyValueProgram {
  import opened LatticeValues
  import opened Options

  type Block(==, 0, !new)
  type Var(==, 0, !new)

  datatype Value = Const(c: Constant) | Variable(v: Var)

  /** What defines a variable: an argument or a global, or an instruction in some block. */
  datatype Def =
    | Argument
    | Phi(block: Block, incoming: seq<(Value, Block)>)
    | Alloca(block: Block)
    | Arith(block: Block, op: Opcode, width: Width, operand: Value, rhs: Rhs)
    | Other(block: Block)

  /** A cast has no right-hand side; other operations may have a constant one. */
  datatype Rhs = NoRhs | ConstRhs(width: Width, k: int) | VarRhs

  /** A comparison `operand pred c`; `plus` says that operand is another variable plus a constant. */
  datatype Compare = Compare(pred: Pred, operand: Value, c: Constant, plus: Option<(Var, int)>)

  datatype Term =
    | Jump(succs: seq<Block>)
    | Branch(cond: Value, cmp: Option<Compare>, yes: Block, no: Block)
    | Switch(on: Value, width: Width, cases: seq<(int, Block)>, default: Block)

  datatype Program = Program(entry: Block, blocks: set<Block>, preds: map<Block, seq<Block>>, vars: set<Var>,
                             def: map<Var, Def>, term: map<Block, Term>, nonNull: set<(Var, Block)>, rules: Rules)

  predicate HasBlock(d: Def) {
    !d.Argument?
  }

  /** Is v an instruction of block b? */
  predicate DefinedIn(p: Program, v: Var, b: Block)
    requires v in p.def
  {
    HasBlock(p.def[v]) && p.def[v].block == b
  }

  function Successors(t: Term): seq<Block> {
    match t
    case Jump(succs) => succs
    case Branch(_, _, yes, no) => [yes, no]
    case Switch(_, _, cases, default) => [default] + seq(|cases|, i requires 0 <= i < |cases| => cases[i].1)
  }

  /** The values that a terminator looks at. */
  function TermUses(t: Term): set<Value> {
    match t
    case Jump(_) => {}
    case Branch(cond, cmp, _, _) =>
      {cond} + if cmp.None? then {}
               else {cmp.value.operand} + if cmp.value.plus.Some? then {Variable(cmp.value.plus.value.0)} else {}
    case Switch(on, _, _, _) => {on}
  }

  predicate Within(p: Program, v: Value) {
    v.Variable? ==> v.v in p.vars
  }

  predicate DistinctCases(cases: seq<(int, Block)>, width: Width) {
    forall i, j :: 0 <= i < j < |cases| ==> cases[i].0 % Size(width) != cases[j].0 % Size(width)
  }

  /** Every name that occurs is declared; predecessors are the blocks that branch here; the entry block
      has no phis; the cases of a switch differ. */
  ghost predicate WellFormed(p: Program) {
    && p.entry in p.blocks && p.preds.Keys == p.blocks && p.term.Keys == p.blocks && p.def.Keys == p.vars
    && (forall b, a :: b in p.blocks && a in p.preds[b] ==> a in p.blocks)
    && (forall a, b :: a in p.blocks && b in p.blocks && b in Successors(p.term[a]) ==> a in p.preds[b])
    && (forall v, i :: v in p.vars && p.def[v].Phi? && 0 <= i < |p.def[v].incoming| ==>
          p.def[v].incoming[i].1 in p.blocks && Within(p, p.def[v].incoming[i].0))
    && (forall v :: v in p.vars && p.def[v].Phi? ==> p.def[v].block != p.entry)
    && (forall v :: v in p.vars && p.def[v].Arith? ==> Within(p, p.def[v].operand))
    && (forall b, u :: b in p.blocks && u in TermUses(p.term[b]) ==> Within(p, u))
    && (forall b :: b in p.blocks && p.term[b].Switch? ==> DistinctCases(p.term[b].cases, p.term[b].width))
  }

  // ---------------------------------------------------------------- runs

  /** One visit of a block: the values that the variables have at its end. */
  datatype Visit = Visit(block: Block, vals: map<Var, int>)

  function ValueOf(p: Program, at: Visit, v: Value): int {
    match v
    case Const(c) => p.rules.ConstantValue(c)
    case Variable(u) => if u in at.vals then at.vals[u] else 0
  }

  /** The instructions of the block give their variables these values; no pointer that the block
      dereferences is null. */
  ghost predicate Computes(p: Program, at: Visit, v: Var)
    requires v in p.def
  {
    && ((v, at.block) in p.nonNull ==> ValueOf(p, at, Variable(v)) != p.rules.address(p.rules.nullId))
    && (DefinedIn(p, v, at.block) ==>
          match p.def[v]
          case Alloca(_) => ValueOf(p, at, Variable(v)) != p.rules.address(p.rules.nullId)
          case Arith(_, op, width, operand, rhs) =>
            (rhs.VarRhs? || op.Unhandled?
             || ValueOf(p, at, Variable(v))
                == p.rules.eval(op, width, ValueOf(p, at, operand), if rhs.ConstRhs? then rhs.k else 0))
          case _ => true)
  }

  /** What an outcome of the comparison says about the value compared. */
  ghost predicate Compared(p: Program, at: Visit, c: Compare, outcome: bool) {
    var x := ValueOf(p, at, c.operand);
    match c.c
    case ConstInt(w, k) =>
      && Compares(c.pred, w, x, k) == outcome
      && (c.plus.Some? ==> x % Size(w) == (ValueOf(p, at, Variable(c.plus.value.0)) + c.plus.value.1) % Size(w))
    case ConstOther(id) =>
      (c.pred == EQ ==> (x == p.rules.address(id)) == outcome)
        && (c.pred == NE ==> (x != p.rules.address(id)) == outcome)
  }

  predicate IsCase(cases: seq<(int, Block)>, width: Width, x: int, i: int) {
    0 <= i < |cases| && x % Size(width) == cases[i].0 % Size(width)
  }

  ghost predicate Branches(p: Program, at: Visit, to: Block)
    requires at.block in p.term
  {
    match p.term[at.block]
    case Jump(succs) => to in succs
    case Branch(cond, cmp, yes, no) =>
      var outcome := ValueOf(p, at, cond) % 2 == 1;
      to == (if outcome then yes else no) && (cmp.Some? ==> Compared(p, at, cmp.value, outcome))
    case Switch(on, width, cases, default) =>
      || (exists i :: IsCase(cases, width, ValueOf(p, at, on), i) && to == cases[i].1)
      || (to == default && forall i :: !IsCase(cases, width, ValueOf(p, at, on), i))
  }

  /** A phi takes the value of an entry for the block that control comes from. */
  ghost predicate TakesPhi(p: Program, from: Visit, at: Visit, v: Var)
    requires v in p.def && p.def[v].Phi?
  {
    exists i :: 0 <= i < |p.def[v].incoming| && p.def[v].incoming[i].1 == from.block
             && ValueOf(p, at, Variable(v)) == ValueOf(p, from, p.def[v].incoming[i].0)
  }

  ghost predicate Follows(p: Program, from: Visit, at: Visit)
    requires WellFormed(p)
  {
    && from.block in p.blocks && Branches(p, from, at.block)
    && forall v :: v in p.vars ==>
      && (!DefinedIn(p, v, at.block) ==> ValueOf(p, at, Variable(v)) == ValueOf(p, from, Variable(v)))
      && (DefinedIn(p, v, at.block) && p.def[v].Phi? ==> TakesPhi(p, from, at, v))
  }

  ghost predicate IsRun(p: Program, run: seq<Visit>)
    requires WellFormed(p)
  {
    && |run| > 0 && run[0].block == p.entry
    && (forall i, v {:trigger Computes(p, run[i], v)} :: 0 <= i < |run| && v in p.vars ==> Computes(p, run[i], v))
    && (forall i {:trigger run[i]} :: 0 <= i < |run| ==> run[i].block in p.blocks)
    && (forall i {:trigger run[i]} :: 0 <= i < |run| - 1 ==> Follows(p, run[i], run[i + 1]))
  }

  /** Some run visits a block with these values at its end. */
  ghost predicate Occurs(p: Program, at: Visit)
    requires WellFormed(p)
  {
    exists run :: IsRun(p, run) && at in run
  }

  /** A visit that occurs starts the run or follows another one. */
  lemma OccursAfter(p: Program, at: Visit) returns (from: Visit)
    requires WellFormed(p) && Occurs(p, at) && at.block != p.entry
    ensures Occurs(p, from) && Follows(p, from, at)
  {
    var run :| IsRun(p, run) && at in run;
    var i :| 0 <= i < |run| && run[i] == at;
    from := run[i - 1];
    assert Follows(p, run[i - 1], run[i - 1 + 1]);
  }

  lemma OccursComputes(p: Program, at: Visit, v: Var)
    requires WellFormed(p) && Occurs(p, at) && v in p.vars
    ensures at.block in p.blocks && Computes(p, at, v)
  {
    var run :| IsRun(p, run) && at in run;
    var i :| 0 <= i < |run| && run[i] == at;
    assert Computes(p, run[i], v);
  }

  /** Is l an upper bound of what v can be at the end of b, in every run? */
  ghost predicate BoundsBlock(p: Program, v: Value, b: Block, l: Lattice)
    requires WellFormed(p)
  {
    forall at {:trigger Occurs(p, at)} :: Occurs(p, at) && at.block == b ==> p.rules.Allows(l, ValueOf(p, at, v))
  }

  /** Is l an upper bound of what v can be when control goes from f to t? */
  ghost predicate BoundsEdge(p: Program, v: Value, f: Block, t: Block, l: Lattice)
    requires WellFormed(p)
  {
    forall from, at {:trigger Follows(p, from, at)} ::
      Occurs(p, from) && Follows(p, from, at) && from.block == f && at.block == t ==>
          p.rules.Allows(l, ValueOf(p, from, v))
  }
}
