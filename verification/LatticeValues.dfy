// What LazyValueInfo records for a value: nothing yet, a constant, a constant it is not, a range, or
// nothing that is known.  Also the integer ranges these are built from.
module LatticeValues {
  import opened MachineIntegers

  // ---------------------------------------------------------------- integers of a width

  type Width = w: nat | w >= 1 witness 1

  function Size(width: Width): (n: int)
    ensures n >= 2
  {
    Pow2(width)
  }

  lemma NextResidue(v: int, n: int)
    requires n >= 2
    ensures (v + 1) % n == if v % n + 1 == n then 0 else v % n + 1
  {
    var q := v / n;
    var a := v % n;
    assert v + 1 == q * n + (a + 1);
    if a + 1 == n {
      assert v + 1 == (q + 1) * n + 0;
      ModIs(v + 1, n, q + 1, 0);
    } else {
      ModIs(v + 1, n, q, a + 1);
    }
  }

  datatype Pred = EQ | NE | ULT | ULE | UGT | UGE | SLT | SLE | SGT | SGE

  function SignedOf(width: Width, x: int): int {
    var y := x % Size(width);
    if 2 * y >= Size(width) then y - Size(width) else y
  }

  /** Does the comparison hold, on integers of this width? */
  predicate Compares(p: Pred, width: Width, x: int, y: int) {
    var n := Size(width);
    match p
    case EQ => x % n == y % n
    case NE => x % n != y % n
    case ULT => x % n < y % n
    case ULE => x % n <= y % n
    case UGT => x % n > y % n
    case UGE => x % n >= y % n
    case SLT => SignedOf(width, x) < SignedOf(width, y)
    case SLE => SignedOf(width, x) <= SignedOf(width, y)
    case SGT => SignedOf(width, x) > SignedOf(width, y)
    case SGE => SignedOf(width, x) >= SignedOf(width, y)
  }

  // ---------------------------------------------------------------- ranges

  /** A half-open range of integers that may wrap; equal bounds mean all or, at zero, nothing. */
  datatype Range = Range(width: Width, lower: int, upper: int)
  {
    predicate Has(x: int) {
      var y := x % Size(width);
      if lower == upper then lower != 0
      else if lower < upper then lower <= y < upper
      else lower <= y || y < upper
    }

    predicate IsEmpty() {
      lower == upper == 0
    }

    predicate IsFull() {
      lower == upper && lower != 0
    }

    predicate IsSingle() {
      upper == (lower + 1) % Size(width) && lower != upper
    }
  }

  function Full(width: Width): Range {
    Range(width, Size(width) - 1, Size(width) - 1)
  }

  function Empty(width: Width): Range {
    Range(width, 0, 0)
  }

  function Single(width: Width, v: int): Range {
    Range(width, v % Size(width), (v + 1) % Size(width))
  }

  function AllBut(width: Width, v: int): Range {
    Range(width, (v + 1) % Size(width), v % Size(width))
  }

  lemma SingleHas(width: Width, v: int, x: int)
    ensures Single(width, v).Has(x) <==> x % Size(width) == v % Size(width)
    ensures AllBut(width, v).Has(x) <==> x % Size(width) != v % Size(width)
    ensures Single(width, v).lower != Single(width, v).upper
  {
    NextResidue(v, Size(width));
  }

  lemma SingleIsSingle(width: Width, v: int)
    ensures Single(width, v).IsSingle() && !Single(width, v).IsEmpty()
  {
    hide Pow2;
    var n := Size(width);
    NextResidue(v, n);
    ResidueNext(v % n, n);
  }

  lemma ResidueNext(a: int, n: int)
    requires 0 <= a < n
    ensures (a + 1) % n == if a + 1 == n then 0 else a + 1
  {
    if a + 1 == n {
      ModIs(a + 1, n, 1, 0);
    } else {
      ModIs(a + 1, n, 0, a + 1);
    }
  }

  datatype Opcode = Add | Sub | Mul | UDiv | Shl | LShr | Trunc | SExt | ZExt | BitCast | And | Or | Unhandled

  // ---------------------------------------------------------------- lattice values

  /** An integer constant, or another constant by its number. */
  datatype Constant = ConstInt(width: Width, value: int) | ConstOther(id: int)

  datatype Lattice =
    | Undefined
    | Known(id: int)
    | NotKnown(id: int)
    | InRange(range: Range)
    | Overdefined

  /** The operations of ConstantRange, what an instruction computes, the addresses of the constants
      that are not integers, and which of those are known to differ. */
  datatype Rules = Rules(
    union: (Range, Range) -> Range,
    intersect: (Range, Range) -> Range,
    difference: (Range, Range) -> Range,
    inverse: Range -> Range,
    subtract: (Range, int) -> Range,
    region: (Pred, Width, int) -> Range,
    apply: (Opcode, Width, Range, Range) -> Range,
    eval: (Opcode, Width, int, int) -> int,
    address: int -> int,
    differ: (int, int) -> bool,
    nullId: int)
  {
    /** Results hold all that they must, and some are exact. */
    ghost predicate Sound() {
      && (forall a: Range, b: Range, x {:trigger union(a, b).Has(x)} :: a.Has(x) || b.Has(x) ==> union(a, b).Has(x))
      && (forall a: Range, b: Range, x {:trigger intersect(a, b).Has(x)} ::
           a.Has(x) && b.Has(x) ==> intersect(a, b).Has(x))
      && (forall a: Range, b: Range, x {:trigger difference(a, b).Has(x)} ::
           a.Has(x) && !b.Has(x) ==> difference(a, b).Has(x))
      && (forall a: Range, x {:trigger inverse(a).Has(x)} :: inverse(a).Has(x) <==> !a.Has(x))
      && (forall a: Range, k, x {:trigger subtract(a, k).Has(x)} :: subtract(a, k).Has(x) <==> a.Has(x + k))
      && (forall p, w: Width, c, x {:trigger region(p, w, c).Has(x)} ::
           region(p, w, c).Has(x) <==> Compares(p, w, x, c))
      && (forall op, w: Width, a: Range, b: Range, x, y {:trigger apply(op, w, a, b), eval(op, w, x, y)} ::
            a.Has(x) && b.Has(y) && op != Unhandled ==> apply(op, w, a, b).Has(eval(op, w, x, y)))
      && (forall a, b {:trigger differ(a, b)} :: differ(a, b) ==> address(a) != address(b))
    }

    /** May a value recorded like this be x at run time? */
    predicate Allows(l: Lattice, x: int) {
      match l
      case Undefined => false
      case Known(c) => x == address(c)
      case NotKnown(c) => x != address(c)
      case InRange(r) => r.Has(x)
      case Overdefined => true
    }

    function ConstantValue(c: Constant): int {
      match c
      case ConstInt(w, v) => v
      case ConstOther(id) => address(id)
    }

    /** Is x, as an integer of its width, the constant? */
    predicate Equals(c: Constant, x: int) {
      match c
      case ConstInt(w, v) => x % Size(w) == v % Size(w)
      case ConstOther(id) => x == address(id)
    }

    function Merge(l: Lattice, r: Lattice): Lattice {
      if r.Undefined? || l.Overdefined? then l
      else if r.Overdefined? then Overdefined
      else
        match (l, r)
        case (Undefined, _) => r
        case (Known(c), Known(d)) => if c == d then l else Overdefined
        case (Known(c), NotKnown(d)) => if c != d && differ(c, d) then r else Overdefined
        case (NotKnown(c), Known(d)) => if c != d && differ(c, d) then l else Overdefined
        case (NotKnown(c), NotKnown(d)) => if c == d then l else Overdefined
        case (InRange(a), InRange(b)) =>
          if union(a, b).IsFull() then Overdefined else OfRange(union(a, b))
        case _ => Overdefined
    }

    /** Merging gives an upper bound of both sides. */
    lemma MergeIsUpperBound(l: Lattice, r: Lattice, x: int)
      requires Sound() && (Allows(l, x) || Allows(r, x))
      ensures Allows(Merge(l, r), x)
    {
    }

    /** No merge is recorded as a range of all values, or of none. */
    lemma MergeIsProper(l: Lattice, r: Lattice)
      requires Proper(l) && Proper(r)
      ensures Proper(Merge(l, r))
    {
    }

    lemma OfConstantAllows(c: Constant, x: int)
      requires Equals(c, x)
      ensures Allows(OfConstant(c), x)
    {
      if c.ConstInt? {
        SingleHas(c.width, c.value, x);
      }
    }

    lemma OfNotAllows(c: Constant, x: int)
      requires !Equals(c, x)
      ensures Allows(OfNot(c), x)
    {
      if c.ConstInt? {
        SingleHas(c.width, c.value, x);
      }
    }
  }

  /** A range without values says nothing. */
  function OfRange(r: Range): Lattice {
    if r.IsEmpty() then Overdefined else InRange(r)
  }

  predicate Proper(l: Lattice) {
    l.InRange? ==> !l.range.IsFull() && !l.range.IsEmpty()
  }

  function OfConstant(c: Constant): Lattice {
    match c
    case ConstInt(w, v) => OfRange(Single(w, v))
    case ConstOther(id) => Known(id)
  }

  function OfNot(c: Constant): Lattice {
    match c
    case ConstInt(w, v) => OfRange(AllBut(w, v))
    case ConstOther(id) => NotKnown(id)
  }

  // ---------------------------------------------------------------- LVILatticeVal

  class LatticeVal {
    var value: Lattice

    constructor ()
      ensures value == Undefined
    {
      value := Undefined;
    }

    method MarkOverdefined() returns (changed: bool)
      modifies this
      ensures value == Overdefined && changed == (old(value) != Overdefined)
    {
      if value.Overdefined? {
        return false;
      }
      value := Overdefined;
      return true;
    }

    method MarkNotKnown(c: int) returns (changed: bool)
      requires value.Undefined? || (value.Known? && value.id != c)
      modifies this
      ensures value == NotKnown(c) && changed
    {
      value := NotKnown(c);
      return true;
    }

    /** On a range this replaces it; a range that holds nothing counts as nothing known. */
    method MarkConstantRange(r: Range) returns (changed: bool)
      requires value.Undefined? || value.InRange?
      modifies this
      ensures value == OfRange(r) && changed == (value != old(value))
    {
      if value.InRange? {
        if r.IsEmpty() {
          changed := MarkOverdefined();
          return;
        }
        changed := value.range != r;
        value := InRange(r);
        return;
      }
      if r.IsEmpty() {
        changed := MarkOverdefined();
        return;
      }
      value := InRange(r);
      return true;
    }

    method MergeIn(ru: Rules, rhs: Lattice) returns (changed: bool)
      modifies this
      ensures value == ru.Merge(old(value), rhs)
      ensures changed == (value != old(value))
    {
      if rhs.Undefined? || value.Overdefined? {
        return false;
      }
      if rhs.Overdefined? {
        changed := MarkOverdefined();
        return;
      }
      if value.Undefined? {
        value := rhs;
        return true;
      }
      if value.Known? {
        if rhs.Known? {
          if value.id == rhs.id {
            return false;
          }
          changed := MarkOverdefined();
          return;
        }
        if rhs.NotKnown? {
          if value.id == rhs.id {
            changed := MarkOverdefined();
            return;
          }
          if ru.differ(value.id, rhs.id) {
            changed := MarkNotKnown(rhs.id);
            return;
          }
          changed := MarkOverdefined();
          return;
        }
        changed := MarkOverdefined();
        return;
      }
      if value.NotKnown? {
        if rhs.Known? {
          if value.id == rhs.id {
            changed := MarkOverdefined();
            return;
          }
          if ru.differ(value.id, rhs.id) {
            return false;
          }
          changed := MarkOverdefined();
          return;
        }
        if rhs.NotKnown? {
          if value.id == rhs.id {
            return false;
          }
          changed := MarkOverdefined();
          return;
        }
        changed := MarkOverdefined();
        return;
      }
      if !rhs.InRange? {
        changed := MarkOverdefined();
        return;
      }
      var newR := ru.union(value.range, rhs.range);
      if newR.IsFull() {
        changed := MarkOverdefined();
        return;
      }
      changed := MarkConstantRange(newR);
    }
  }
}
