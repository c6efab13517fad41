// Numbers as digits, and constants as the bytes they occupy in memory.
module MemoryImage {
  import opened MachineIntegers
  import opened Options

  // ---------------------------------------------------------------- digits

  function Power(b: nat, n: nat): (p: nat)
    ensures b > 0 ==> p > 0
  {
    if n == 0 then 1 else b * Power(b, n - 1)
  }

  lemma {:induction false} PowerAdds(b: nat, m: nat, n: nat)
    ensures Power(b, m + n) == Power(b, m) * Power(b, n)
    decreases m
  {
    if m > 0 {
      PowerAdds(b, m - 1, n);
      assert b * (Power(b, m - 1) * Power(b, n)) == b * Power(b, m - 1) * Power(b, n);
    }
  }

  /** Digit i of x, the lowest being digit 0. */
  function Digit(x: nat, b: nat, i: nat): nat
    requires b > 0
  {
    x / Power(b, i) % b
  }

  /** The number with these digits, the lowest first. */
  function FromDigits(ds: seq<nat>, b: nat): nat {
    if ds == [] then 0 else ds[0] + b * FromDigits(ds[1..], b)
  }

  predicate AllBelow(ds: seq<nat>, b: nat) {
    forall i :: 0 <= i < |ds| ==> ds[i] < b
  }

  lemma DivDiv(x: nat, a: nat, b: nat)
    requires a > 0 && b > 0
    ensures a * b > 0 && x / a / b == x / (a * b)
  {
    var q, r := x / a, x % a;
    var s, t := q / b, q % b;
    DivMod(x, a);
    DivMod(q, b);
    Dist(s * b, t, a);
    Swap(s, b, a);
    assert s * a * b == s * (a * b);
    MulMono(t, b - 1, a);
    Dist(b, -1, a);
    MulMono(1, b, a);
    assert a * b == b * a;
    DivIs(x, a * b, s, t * a + r);
  }

  lemma {:induction false} DigitOfNext(x: nat, b: nat, i: nat)
    requires b > 0
    ensures Digit(x, b, i + 1) == Digit(x / b, b, i)
  {
    hide Power;
    ShiftedDigit(x, b, 1, i);
    PowerOne(b);
  }

  lemma PowerOne(b: nat)
    ensures Power(b, 1) == b
  {
    assert Power(b, 0) == 1;
  }

  /** The digits of a number made from digits. */
  lemma {:induction false} DigitFromDigits(ds: seq<nat>, b: nat, i: nat)
    requires b > 0 && AllBelow(ds, b) && i < |ds|
    ensures Digit(FromDigits(ds, b), b, i) == ds[i]
    decreases |ds|
  {
    var x, rest := FromDigits(ds, b), FromDigits(ds[1..], b);
    assert b * rest == rest * b;
    DivIs(x, b, rest, ds[0]);
    if i == 0 {
      assert Power(b, 0) == 1;
    } else {
      DigitOfNext(x, b, i - 1);
      DigitFromDigits(ds[1..], b, i - 1);
    }
  }

  lemma {:induction false} FromDigitsBelow(ds: seq<nat>, b: nat)
    requires b > 0 && AllBelow(ds, b)
    ensures FromDigits(ds, b) < Power(b, |ds|)
    decreases |ds|
  {
    if ds != [] {
      FromDigitsBelow(ds[1..], b);
      var p := Power(b, |ds| - 1);
      MulMono(FromDigits(ds[1..], b), p - 1, b);
      Dist(p, -1, b);
      assert b * p == p * b;
    }
  }

  function DigitsOf(x: nat, b: nat, n: nat): (ds: seq<nat>)
    requires b > 0
    ensures |ds| == n && forall i :: 0 <= i < n ==> ds[i] == Digit(x, b, i)
  {
    seq(n, i requires 0 <= i < n => Digit(x, b, i))
  }

  /** The number made from the digits of a number. */
  lemma {:induction false} FromDigitsOf(x: nat, b: nat, n: nat)
    requires b > 0 && x < Power(b, n)
    ensures FromDigits(DigitsOf(x, b, n), b) == x
    decreases n
  {
    if n > 0 {
      var ds := DigitsOf(x, b, n);
      assert x < Power(b, n - 1) * b by { assert b * Power(b, n - 1) == Power(b, n - 1) * b; }
      DivBelow(x, b, Power(b, n - 1));
      FromDigitsOf(x / b, b, n - 1);
      forall i | 0 <= i < n - 1
        ensures ds[1..][i] == DigitsOf(x / b, b, n - 1)[i]
      {
        DigitOfNext(x, b, i);
      }
      assert ds[1..] == DigitsOf(x / b, b, n - 1);
      assert Power(b, 0) == 1 && ds[0] == x % b;
    }
  }

  lemma {:induction false} PowerPower(b: nat, n: nat, i: nat)
    ensures Power(Power(b, n), i) == Power(b, n * i)
    decreases i
  {
    if i > 0 {
      PowerPower(b, n, i - 1);
      PowerAdds(b, n, n * (i - 1));
      assert n + n * (i - 1) == n * i;
    } else {
      assert n * 0 == 0;
    }
  }

  /** The lower part of a number, shifted down. */
  lemma LowPart(y: nat, low: nat, b: nat, high: nat)
    requires low > 0 && b > 0 && high > 0
    ensures low * (b * high) > 0 && y % (low * (b * high)) / low % b == y / low % b
  {
    var p := low * (b * high);
    assert b * high > 0 && p > 0;
    var q, r := y / p, y % p;
    var s, t := r / low, r % low;
    DivMod(y, p);
    DivMod(r, low);
    assert q * p == q * (b * high) * low by { assert q * p == q * ((b * high) * low); }
    Dist(q * (b * high), s, low);
    DivIs(y, low, q * (b * high) + s, t);
    var u, v := s / b, s % b;
    DivMod(s, b);
    assert q * (b * high) == q * high * b;
    Dist(q * high, u, b);
    DivIs(q * (b * high) + s, b, q * high + u, v);
  }

  /** The low digits of y are those of y modulo a power of the base. */
  lemma LowDigit(y: nat, b: nat, n: nat, j: nat)
    requires b > 0 && j < n
    ensures Digit(y % Power(b, n), b, j) == Digit(y, b, j)
  {
    PowerAdds(b, j, n - j);
    assert Power(b, n - j) == b * Power(b, n - j - 1);
    LowPart(y, Power(b, j), b, Power(b, n - j - 1));
  }

  lemma DigitIs(x: nat, b: nat, i: nat)
    requires b > 0
    ensures Digit(x, b, i) == x / Power(b, i) % b && x / Power(b, i) >= 0
  {
    hide Power;
    DivAtLeast(x, Power(b, i), 0);
  }

  lemma ShiftedDigit(x: nat, b: nat, m: nat, j: nat)
    requires b > 0
    ensures Digit(x / Power(b, m), b, j) == Digit(x, b, m + j)
  {
    hide Power, Digit;
    DigitIs(x, b, m);
    DigitIs(x / Power(b, m), b, j);
    DigitIs(x, b, m + j);
    PowerAdds(b, m, j);
    DivDiv(x, Power(b, m), Power(b, j));
  }

  /** A digit of a digit. */
  lemma DigitOfDigit(x: nat, b: nat, n: nat, i: nat, j: nat)
    requires b > 0 && j < n
    ensures Digit(Digit(x, Power(b, n), i), b, j) == Digit(x, b, n * i + j)
  {
    hide Power, Digit;
    DigitIs(x, Power(b, n), i);
    PowerPower(b, n, i);
    LowDigit(x / Power(b, n * i), b, n, j);
    ShiftedDigit(x, b, n * i, j);
  }

  // ---------------------------------------------------------------- constants

  /** Zeros or undef; an integer of so many bytes; a structure with the offsets of its fields; an array or
      a vector; a pointer made from an integer of the same size; anything else. */
  datatype Const =
    | Zero(size: nat)
    | Int(bytes: nat, value: nat)
    | Struct(size: nat, fields: seq<(nat, Const)>)
    | Array(stride: nat, elts: seq<Const>)
    | IntToPtr(c: Const)
    | Unknown(size: nat)

  function AllocSize(c: Const): nat {
    match c
    case Zero(n) => n
    case Int(n, _) => n
    case Struct(n, _) => n
    case Array(s, elts) => s * |elts|
    case IntToPtr(d) => AllocSize(d)
    case Unknown(n) => n
  }

  predicate IntOk(bytes: nat, value: nat) {
    (bytes == 1 || bytes == 2 || bytes == 4 || bytes == 8) && value < Power(256, bytes)
  }

  /** Integers are byte-sized powers of two, fields follow each other, elements fill their stride. */
  ghost predicate Laid(c: Const) {
    match c
    case Zero(_) => true
    case Int(n, v) => IntOk(n, v)
    case Struct(n, fields) =>
      && fields != [] && fields[0].0 == 0
      && (forall i :: 0 <= i < |fields| ==> Laid(fields[i].1) && fields[i].0 + AllocSize(fields[i].1) <= n)
      && (forall i, j :: 0 <= i < j < |fields| ==> fields[i].0 + AllocSize(fields[i].1) <= fields[j].0)
    case Array(s, elts) => s > 0 && forall i :: 0 <= i < |elts| ==> Laid(elts[i]) && AllocSize(elts[i]) == s
    case IntToPtr(d) => d.Int? && Laid(d)
    case Unknown(_) => true
  }

  /** The place of digit i of n when it is stored. */
  function Place(little: bool, n: nat, i: nat): int {
    if little then i else n - 1 - i
  }

  /** The byte at position i of the memory that the constant occupies, if it is known; padding and undef
      are zero. */
  function Byte(little: bool, c: Const, i: nat): Option<nat>
    decreases c, if c.Struct? then |c.fields| + 1 else 0
  {
    match c
    case Zero(_) => Some(0)
    case Int(n, v) => Some(if i < n then Digit(v, 256, Place(little, n, i)) else 0)
    case Struct(_, fields) => FieldByte(little, c, |fields|, i)
    case Array(s, elts) => if s > 0 && i / s < |elts| then Byte(little, elts[i / s], i % s) else Some(0)
    case IntToPtr(d) => Byte(little, d, i)
    case Unknown(_) => None
  }

  /** The byte in the last of the first k fields that starts at or before i. */
  function FieldByte(little: bool, c: Const, k: nat, i: nat): Option<nat>
    requires c.Struct? && k <= |c.fields|
    decreases c, k
  {
    if k == 0 then Some(0)
    else
      var f := c.fields[k - 1];
      if f.0 <= i then (if i - f.0 < AllocSize(f.1) then Byte(little, f.1, i - f.0) else Some(0))
      else FieldByte(little, c, k - 1, i)
  }

  /** A byte within a field is the byte of the field; between fields it is zero. */
  lemma {:induction false} FieldByteIs(little: bool, c: Const, k: nat, j: nat, i: nat)
    requires c.Struct? && j < k <= |c.fields| && c.fields[j].0 <= i && forall m :: j < m < k ==> i < c.fields[m].0
    ensures FieldByte(little, c, k, i)
            == if i - c.fields[j].0 < AllocSize(c.fields[j].1) then Byte(little, c.fields[j].1, i - c.fields[j].0)
              else Some(0)
    decreases k
  {
    if j < k - 1 {
      FieldByteIs(little, c, k - 1, j, i);
    }
  }
}
