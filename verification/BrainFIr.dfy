// The part of LLVM's intermediate representation that the BrainF compiler emits, and what running
// it does.  Every instruction that has a result names a register of its own.
module BrainFIr {
  import opened Maps
  import opened BrainFLanguage

  type Reg = nat
  type Label = nat

  datatype Instr =
    | Malloc(dst: Reg)
    | Memset(ptr: Reg, len: int)
    | Gep(dst: Reg, ptr: Reg, offset: int)
    | CallGetChar(dst: Reg)
    | CallPutChar(arg: Reg)
    | Trunc(dst: Reg, src: Reg)
    | SExt(dst: Reg, src: Reg)
    | Load(dst: Reg, ptr: Reg)
    | Store(src: Reg, ptr: Reg)
    | AddConst(dst: Reg, src: Reg, k: int)
    | CmpUge(dst: Reg, a: Reg, b: Reg)
    | CmpUlt(dst: Reg, a: Reg, b: Reg)
    | OrBits(dst: Reg, a: Reg, b: Reg)
    | IsZero(dst: Reg, src: Reg)
    | CallFree(ptr: Reg)
    | CallPuts

  datatype Phi = NoPhi | Phi(dst: Reg, incoming: seq<(Label, Reg)>)

  datatype Term = Open | Br(to: Label) | CondBr(cond: Reg, yes: Label, no: Label) | Ret

  datatype Block = Block(phi: Phi, body: seq<Instr>, term: Term)

  type Regs = map<Reg, int>

  function Val(regs: Regs, r: Reg): int {
    if r in regs then regs[r] else 0
  }

  datatype Config = At(block: Label, idx: nat, regs: Regs, world: World) | Done(world: World)

  /** The register that a phi takes when control comes from `from`. */
  function Incoming(incoming: seq<(Label, Reg)>, from: Label): Reg {
    if incoming == [] then 0
    else if incoming[0].0 == from then incoming[0].1
    else Incoming(incoming[1..], from)
  }

  function Enter(phi: Phi, from: Label, regs: Regs): Regs {
    match phi
    case NoPhi => regs
    case Phi(dst, incoming) => regs[dst := Val(regs, Incoming(incoming, from))]
  }

  function Bit(b: bool): int {
    if b then 1 else 0
  }

  /** An 8-bit value as a signed number. */
  function Signed8(v: int): int {
    if v % 256 >= 128 then v % 256 - 256 else v % 256
  }

  function Addresses(at: int, len: int): (s: set<int>)
    ensures forall a :: a in s <==> at <= a < at + len
    decreases len
  {
    if len <= 0 then {} else Addresses(at, len - 1) + {at + len - 1}
  }

  ghost function Zeroed(w: World, at: int, len: int): World {
    w.(mem := Assigned(w.mem, Addresses(at, len), 0))
  }

  /** malloc returns `base`. */
  ghost function Exec(base: int, i: Instr, regs: Regs, w: World): (Regs, World) {
    match i
    case Malloc(dst) => (regs[dst := base], w)
    case Memset(ptr, len) => (regs, Zeroed(w, Val(regs, ptr), len))
    case Gep(dst, ptr, k) => (regs[dst := (Val(regs, ptr) + k) % WORD], w)
    case CallGetChar(dst) => (regs[dst := w.Next()], w.Skip())
    case CallPutChar(arg) => (regs, w.Put(Val(regs, arg)))
    case Trunc(dst, src) => (regs[dst := Val(regs, src) % 256], w)
    case SExt(dst, src) => (regs[dst := Signed8(Val(regs, src))], w)
    case Load(dst, ptr) => (regs[dst := w.Cell(Val(regs, ptr))], w)
    case Store(src, ptr) => (regs, w.Set(Val(regs, ptr), Val(regs, src)))
    case AddConst(dst, src, k) => (regs[dst := (Val(regs, src) + k) % 256], w)
    case CmpUge(dst, a, b) => (regs[dst := Bit(Val(regs, a) >= Val(regs, b))], w)
    case CmpUlt(dst, a, b) => (regs[dst := Bit(Val(regs, a) < Val(regs, b))], w)
    case OrBits(dst, a, b) => (regs[dst := Bit(Val(regs, a) != 0 || Val(regs, b) != 0)], w)
    case IsZero(dst, src) => (regs[dst := Bit(Val(regs, src) == 0)], w)
    case CallFree(ptr) => (regs, w.(freed := w.freed + [Val(regs, ptr)]))
    case CallPuts => (regs, w.(out := w.out + [Message]))
  }

  /** Go to block `to`, giving its phi a value. */
  function Jump(blocks: seq<Block>, from: Label, to: Label, regs: Regs, w: World): Config {
    if to < |blocks| then At(to, 0, Enter(blocks[to].phi, from, regs), w) else Done(w)
  }

  ghost function StepConfig(base: int, blocks: seq<Block>, c: Config): Config {
    if c.Done? || c.block >= |blocks| then c
    else
      var b := blocks[c.block];
      if c.idx < |b.body| then
        var (regs, w) := Exec(base, b.body[c.idx], c.regs, c.world);
        At(c.block, c.idx + 1, regs, w)
      else
        match b.term
        case Open => c
        case Br(to) => Jump(blocks, c.block, to, c.regs, c.world)
        case CondBr(r, yes, no) => Jump(blocks, c.block, if Val(c.regs, r) != 0 then yes else no, c.regs, c.world)
        case Ret => Done(c.world)
  }

  ghost function RunConfig(base: int, blocks: seq<Block>, c: Config, n: nat): Config
    decreases n
  {
    if n == 0 then c else RunConfig(base, blocks, StepConfig(base, blocks, c), n - 1)
  }

  lemma {:induction false} RunConfigThen(base: int, blocks: seq<Block>, c: Config, a: nat, b: nat)
    ensures RunConfig(base, blocks, c, a + b) == RunConfig(base, blocks, RunConfig(base, blocks, c, a), b)
    decreases a
  {
    if a != 0 {
      RunConfigThen(base, blocks, StepConfig(base, blocks, c), a - 1, b);
    }
  }

  lemma {:induction false} RunConfigDone(base: int, blocks: seq<Block>, c: Config, n: nat)
    requires c.Done?
    ensures RunConfig(base, blocks, c, n) == c
    decreases n
  {
    if n != 0 {
      RunConfigDone(base, blocks, c, n - 1);
    }
  }

  /** The program starts at the top of block 0 with nothing in its registers. */
  function Start(w: World): Config {
    At(0, 0, map[], w)
  }
}
