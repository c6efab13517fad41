// ConstantFolding.cpp, FoldBitCast: a vector of integers as a vector with another number of elements.
module BitCasts {
  import opened MachineIntegers
  import opened Options
  import opened MemoryImage
  import opened ConstantFolding

  /** A vector of integers of so many bytes each as a constant. */
  function Vector(bytes: nat, xs: seq<nat>): Const {
    Array(bytes, Ints(bytes, xs))
  }

  function Ints(bytes: nat, xs: seq<nat>): (cs: seq<Const>)
    ensures |cs| == |xs| && forall i :: 0 <= i < |xs| ==> cs[i] == Int(bytes, xs[i])
  {
    seq(|xs|, i requires 0 <= i < |xs| => Int(bytes, xs[i]))
  }

  /** Two vectors occupy memory in the same way. */
  ghost predicate SameImage(little: bool, m: nat, xs: seq<nat>, n: nat, ys: seq<nat>) {
    && AllocSize(Vector(m, xs)) == AllocSize(Vector(n, ys))
    && forall p: nat :: Byte(little, Vector(m, xs), p) == Byte(little, Vector(n, ys), p)
  }

  lemma ByteOfVector(little: bool, s: nat, xs: seq<nat>, k: nat, u: nat)
    requires k < |xs| && u < s
    ensures k * s + u >= 0 && Byte(little, Vector(s, xs), k * s + u) == Some(Digit(xs[k], 256, Place(little, s, u)))
  {
    hide Digit, Power;
    DivIs(k * s + u, s, k, u);
    var v := Vector(s, xs);
    assert Byte(little, v, k * s + u) == Byte(little, v.elts[k], u);
  }

  lemma ByteBeyondVector(little: bool, s: nat, xs: seq<nat>, p: nat)
    requires s > 0 && p >= s * |xs|
    ensures Byte(little, Vector(s, xs), p) == Some(0)
  {
    assert |xs| * s == s * |xs|;
    DivAtLeast(p, s, |xs|);
  }

  // ---------------------------------------------------------------- parts

  /** The elements xs are the parts of the elements ys, r for each, in the order of memory. */
  ghost predicate Parts(little: bool, s: nat, r: nat, xs: seq<nat>, ys: seq<nat>) {
    |xs| == |ys| * r && forall i: nat, j: nat :: i < |ys| && j < r ==> PartAt(little, s, r, xs, ys, i, j)
  }

  ghost predicate PartAt(little: bool, s: nat, r: nat, xs: seq<nat>, ys: seq<nat>, i: nat, j: nat) {
    i < |ys| && i * r + j < |xs| && IsPart(little, s, r, xs[i * r + j], ys[i], j)
  }

  /** x is part j of the r parts of y, of s bytes each. */
  ghost predicate IsPart(little: bool, s: nat, r: nat, x: nat, y: nat, j: nat) {
    j < r && x == Digit(y, Power(256, s), Place(little, r, j))
  }

  lemma PlaceOfByte(little: bool, s: nat, r: nat, j: nat, u: nat)
    requires j < r && u < s
    ensures j * s + u < r * s
    ensures s * Place(little, r, j) + Place(little, s, u) == Place(little, r * s, j * s + u)
  {
    MulMono(j + 1, r, s);
    Dist(j, 1, s);
    assert s * (r - 1 - j) == r * s - s - j * s by { Dist(r, -1 - j, s); Dist(-1, 0 - j, s); }
  }

  /** A byte of a part is a byte of the whole. */
  lemma ByteOfPart(little: bool, s: nat, r: nat, x: nat, y: nat, j: nat, u: nat)
    requires IsPart(little, s, r, x, y, j) && u < s
    ensures j * s + u < r * s
    ensures Digit(x, 256, Place(little, s, u)) == Digit(y, 256, Place(little, r * s, j * s + u))
  {
    hide Digit, Power;
    PlaceOfByte(little, s, r, j, u);
    DigitOfDigit(y, 256, s, Place(little, r, j), Place(little, s, u));
  }

  lemma PartByte(little: bool, s: nat, r: nat, xs: seq<nat>, ys: seq<nat>, i: nat, j: nat, u: nat)
    requires i < |ys| && j < r && u < s && PartAt(little, s, r, xs, ys, i, j)
    ensures Byte(little, Vector(s, xs), (i * r + j) * s + u)
            == Byte(little, Vector(r * s, ys), i * (r * s) + (j * s + u))
    ensures (i * r + j) * s + u == i * (r * s) + (j * s + u)
  {
    hide Digit, Power, Byte, Vector, IsPart;
    ByteOfPart(little, s, r, xs[i * r + j], ys[i], j, u);
    ByteOfVector(little, s, xs, i * r + j, u);
    ByteOfVector(little, r * s, ys, i, j * s + u);
    Dist(i * r, j, s);
    assert i * r * s == i * (r * s);
  }

  lemma Split(p: nat, s: nat, r: nat) returns (i: nat, j: nat, u: nat)
    requires s > 0 && r > 0
    ensures p == i * (r * s) + (j * s + u) && j < r && u < s
  {
    var n := r * s;
    MulMono(1, r, s);
    DivMod(p, n);
    DivAtLeast(p, n, 0);
    DivMod(p % n, s);
    DivAtLeast(p % n, s, 0);
    DivBelow(p % n, s, r);
    i, j, u := p / n, p % n / s, p % n % s;
  }

  lemma WithinWhole(p: nat, i: nat, k: nat, n: nat)
    requires i * n <= p < n * k
    ensures i < k
  {
    if i >= k { MulMono(k, i, n); }
  }

  lemma PartsImage(little: bool, s: nat, r: nat, xs: seq<nat>, ys: seq<nat>)
    requires s > 0 && r > 0 && Parts(little, s, r, xs, ys)
    ensures SameImage(little, s, xs, r * s, ys)
  {
    hide Byte, PartAt;
    SizeOfParts(s, r, xs, ys);
    forall p: nat
      ensures Byte(little, Vector(s, xs), p) == Byte(little, Vector(r * s, ys), p)
    {
      MulMono(1, r, s);
      if p < r * s * |ys| {
        var i, j, u := Split(p, s, r);
        WithinWhole(p, i, |ys|, r * s);
        PartByte(little, s, r, xs, ys, i, j, u);
      } else {
        ByteBeyondVector(little, s, xs, p);
        ByteBeyondVector(little, r * s, ys, p);
      }
    }
  }

  lemma SizeOfParts(s: nat, r: nat, xs: seq<nat>, ys: seq<nat>)
    requires |xs| == |ys| * r
    ensures s * |xs| == r * s * |ys|
    ensures AllocSize(Vector(s, xs)) == s * |xs| && AllocSize(Vector(r * s, ys)) == r * s * |ys|
  {
    assert s * (|ys| * r) == s * |ys| * r;
    Swap(s, |ys|, r);
    assert s * r == r * s;
  }

  /** A vector is determined by its image. */
  lemma ImageDetermines(little: bool, n: nat, xs: seq<nat>, ys: seq<nat>)
    requires n > 0 && SameImage(little, n, xs, n, ys) && AllBelow(xs, Power(256, n)) && AllBelow(ys, Power(256, n))
    ensures xs == ys
  {
    hide Byte, Digit, Power;
    assert n * |xs| == n * |ys|;
    DivIs(n * |xs|, n, |xs|, 0);
    DivIs(n * |xs|, n, |ys|, 0);
    forall k | 0 <= k < |xs|
      ensures xs[k] == ys[k]
    {
      ElementDetermined(little, n, xs, ys, k);
    }
  }

  lemma ElementDetermined(little: bool, n: nat, xs: seq<nat>, ys: seq<nat>, k: nat)
    requires SameImage(little, n, xs, n, ys) && k < |xs| && k < |ys|
    requires xs[k] < Power(256, n) && ys[k] < Power(256, n)
    ensures xs[k] == ys[k]
  {
    hide Byte, Digit, Power, Vector;
    forall d | 0 <= d < n
      ensures DigitsOf(xs[k], 256, n)[d] == DigitsOf(ys[k], 256, n)[d]
    {
      var u := Place(little, n, d);
      assert Place(little, n, u) == d;
      ByteOfVector(little, n, xs, k, u);
      ByteOfVector(little, n, ys, k, u);
    }
    assert DigitsOf(xs[k], 256, n) == DigitsOf(ys[k], 256, n);
    FromDigitsOf(xs[k], 256, n);
    FromDigitsOf(ys[k], 256, n);
  }

  /** Folding there and back is the identity. */
  lemma ThereAndBack(little: bool, m: nat, xs: seq<nat>, n: nat, ys: seq<nat>, zs: seq<nat>)
    requires m > 0 && SameImage(little, m, xs, n, ys) && SameImage(little, n, ys, m, zs)
    requires AllBelow(xs, Power(256, m)) && AllBelow(zs, Power(256, m))
    ensures zs == xs
  {
    hide Byte, Power;
    forall p: nat
      ensures Byte(little, Vector(m, xs), p) == Byte(little, Vector(m, zs), p)
    {
      assert Byte(little, Vector(m, xs), p) == Byte(little, Vector(n, ys), p);
    }
    ImageDetermines(little, m, xs, zs);
  }

  // ---------------------------------------------------------------- fewer, wider elements

  lemma {:induction false} PowerOfPow2(k: nat, j: nat)
    ensures k * j >= 0 && Power(Pow2(k), j) == Pow2(k * j)
    decreases j
  {
    if j > 0 {
      PowerOfPow2(k, j - 1);
      Pow2Adds(k, k * (j - 1));
      assert k + k * (j - 1) == k * j;
    } else {
      assert k * 0 == 0;
    }
  }

  lemma {:induction false} OrSwaps(x: nat, y: nat)
    ensures BitOr(x, y) == BitOr(y, x)
    decreases x + y
  {
    if x != 0 || y != 0 {
      OrSwaps(x / 2, y / 2);
    }
  }

  lemma {:induction false} FromDigitsNext(ds: seq<nat>, x: nat, b: nat)
    ensures FromDigits(ds + [x], b) == FromDigits(ds, b) + x * Power(b, |ds|)
    decreases |ds|
  {
    if ds == [] {
      assert ds + [x] == [x];
      assert FromDigits([x][1..], b) == 0;
    } else {
      assert (ds + [x])[1..] == ds[1..] + [x];
      FromDigitsNext(ds[1..], x, b);
      DigitsShift(FromDigits(ds[1..], b), x, Power(b, |ds| - 1), b);
    }
  }

  lemma DigitsShift(rest: nat, x: nat, p: nat, b: nat)
    ensures b * (rest + x * p) == b * rest + x * (b * p)
  {
    Dist(rest, x * p, b);
    Swap(x, p, b);
    assert x * p * b == x * (b * p);
  }

  /** An element of fewer bits put into the free high part, as little-endian machines do. */
  lemma PutAbove(ds: seq<nat>, x: nat, k: nat, dst: nat)
    requires AllBelow(ds, Pow2(k)) && x < Pow2(k) && k * |ds| + k <= dst
    ensures k * |ds| >= 0 && x * Pow2(k * |ds|) < Pow2(dst)
    ensures BitOr(FromDigits(ds, Pow2(k)), x * Pow2(k * |ds|)) == FromDigits(ds + [x], Pow2(k))
  {
    hide FromDigits, Power, Pow2;
    var low := k * |ds|;
    PowerOfPow2(k, |ds|);
    FromDigitsBelow(ds, Pow2(k));
    FromDigitsNext(ds, x, Pow2(k));
    OrSwaps(FromDigits(ds, Pow2(k)), x * Pow2(low));
    OrOfApart(x, FromDigits(ds, Pow2(k)), low);
    BelowShifted(x, k, low, dst);
  }

  lemma BelowShifted(x: nat, k: nat, low: nat, dst: nat)
    requires x < Pow2(k) && low + k <= dst
    ensures x * Pow2(low) < Pow2(dst)
  {
    hide Pow2;
    var p := Pow2(low);
    MulMono(x, Pow2(k) - 1, p);
    Dist(Pow2(k), -1, p);
    Pow2Adds(k, low);
    Pow2Grows(k + low, dst);
  }

  /** An element put below those there already, as big-endian machines do; `low` bits stay free. */
  lemma PutBelow(ds: seq<nat>, x: nat, k: nat, low: nat, dst: nat)
    requires x < Pow2(k) && low + k <= dst
    ensures x * Pow2(low) < Pow2(dst) && FromDigits(Reverse(ds), Pow2(k)) * Pow2(low + k) >= 0
    ensures BitOr(FromDigits(Reverse(ds), Pow2(k)) * Pow2(low + k), x * Pow2(low))
            == FromDigits(Reverse(ds + [x]), Pow2(k)) * Pow2(low)
  {
    hide FromDigits, Power, Pow2, Reverse, BitOr;
    var whole, p := FromDigits(Reverse(ds), Pow2(k)), Pow2(low);
    BelowShifted(x, k, low, dst);
    BelowShifted(x, k, low, low + k);
    OrOfApart(whole, x * p, low + k);
    Pow2Adds(k, low);
    NextBelow(whole, x, Pow2(k), p);
    ReverseMore(ds, x);
    NextAbove(x, Reverse(ds), Pow2(k));
  }

  lemma NextBelow(whole: nat, x: nat, b: nat, p: nat)
    ensures whole * (b * p) + x * p == (x + whole * b) * p
  {
    assert whole * (b * p) == whole * b * p;
    Dist(whole * b, x, p);
  }

  lemma ReverseMore(ds: seq<nat>, x: nat)
    ensures Reverse(ds + [x]) == [x] + Reverse(ds)
  {
    assert (ds + [x])[..|ds|] == ds && (ds + [x])[..|ds| + 1] == ds + [x];
    ReverseNext(ds + [x], |ds|);
  }

  lemma NextAbove(x: nat, ds: seq<nat>, b: nat)
    ensures FromDigits([x] + ds, b) == x + FromDigits(ds, b) * b
  {
    assert ([x] + ds)[1..] == ds;
  }

  /** The parts of the whole element are its digits. */
  lemma WholeHasParts(little: bool, s: nat, r: nat, ds: seq<nat>)
    requires |ds| == r && AllBelow(ds, Power(256, s))
    ensures forall j :: 0 <= j < r ==> IsPart(little, s, r, ds[j], FromDigits(Ordered(little, ds), Power(256, s)), j)
    ensures FromDigits(Ordered(little, ds), Power(256, s)) < Power(256, r * s)
  {
    hide Power, FromDigits, Digit;
    var b, os := Power(256, s), Ordered(little, ds);
    forall i | 0 <= i < |os|
      ensures os[i] < b
    {
      var j := Place(little, r, i);
      assert os[Place(little, r, j)] == ds[j];
    }
    forall j | 0 <= j < r
      ensures IsPart(little, s, r, ds[j], FromDigits(os, b), j)
    {
      assert os[Place(little, r, j)] == ds[j];
      DigitFromDigits(os, b, Place(little, r, j));
    }
    FromDigitsBelow(os, b);
    PowerPower(256, s, r);
    assert s * r == r * s;
  }

  // ---------------------------------------------------------------- elements that are integers

  predicate AllKnown(src: seq<Option<nat>>) {
    forall i :: 0 <= i < |src| ==> src[i].Some?
  }

  function Values(src: seq<Option<nat>>): (xs: seq<nat>)
    requires AllKnown(src)
    ensures |xs| == |src| && forall i :: 0 <= i < |src| ==> src[i] == Some(xs[i])
  {
    seq(|src|, i requires 0 <= i < |src| => src[i].value)
  }

  predicate Fits(src: seq<Option<nat>>, bytes: nat) {
    forall i :: 0 <= i < |src| && src[i].Some? ==> src[i].value < Power(256, bytes)
  }

  lemma FitsBits(src: seq<Option<nat>>, bytes: nat, i: nat)
    requires Fits(src, bytes) && i < |src| && src[i].Some?
    ensures src[i].value < Pow2(8 * bytes) && Pow2(8 * bytes) == Power(256, bytes)
  {
    hide Power, Pow2;
    ByteShift(bytes);
  }

  lemma SliceNext(src: seq<Option<nat>>, start: nat, j: nat)
    requires start + j < |src| && src[start + j].Some? && AllKnown(src[start..start + j])
    ensures AllKnown(src[start..start + (j + 1)])
    ensures Values(src[start..start + (j + 1)]) == Values(src[start..start + j]) + [src[start + j].value]
  {
    assert src[start..start + (j + 1)] == src[start..start + j] + [src[start + j]];
  }

  /** A whole element from the parts that start at `start`. */
  method CombineElement(little: bool, s: nat, r: nat, src: seq<Option<nat>>, start: nat) returns (elt: Option<nat>)
    requires start + r <= |src| && Fits(src, s)
    ensures elt.Some? <==> AllKnown(src[start..start + r])
    ensures elt.Some? ==> elt.value == FromDigits(Ordered(little, Values(src[start..start + r])), Pow2(8 * s))
  {
    if little {
      elt := CombineLittle(s, r, src, start);
    } else {
      elt := CombineBig(s, r, src, start);
    }
  }

  lemma CombineLittleStep(s: nat, r: nat, src: seq<Option<nat>>, start: nat, j: nat, k: nat)
    requires j < r && start + r <= |src| && Fits(src, s) && k == 8 * s && src[start + j].Some?
    requires AllKnown(src[start..start + j]) && AllBelow(Values(src[start..start + j]), Pow2(k))
    ensures k * j >= 0 && k * r >= 0 && AllKnown(src[start..start + (j + 1)])
            && AllBelow(Values(src[start..start + (j + 1)]), Pow2(k))
    ensures BitOr(FromDigits(Values(src[start..start + j]), Pow2(k)), src[start + j].value * Pow2(k * j) % Pow2(k * r))
            == FromDigits(Values(src[start..start + (j + 1)]), Pow2(k))
  {
    hide FromDigits, Power, Pow2, BitOr;
    var x := src[start + j].value;
    FitsBits(src, s, start + j);
    Room(k, j, r);
    PutAbove(Values(src[start..start + j]), x, k, k * r);
    SliceNext(src, start, j);
    SmallMod(x * Pow2(k * j), Pow2(k * r));
  }

  lemma SmallMod(x: nat, m: nat)
    requires x < m
    ensures x % m == x
  {
    DivIs(x, m, 0, x);
  }

  method CombineLittle(s: nat, r: nat, src: seq<Option<nat>>, start: nat) returns (elt: Option<nat>)
    requires start + r <= |src| && Fits(src, s)
    ensures elt.Some? <==> AllKnown(src[start..start + r])
    ensures elt.Some? ==> elt.value == FromDigits(Values(src[start..start + r]), Pow2(8 * s))
  {
    hide FromDigits, Power, Pow2, BitOr, Fits, AllKnown, Values;
    var srcBits := 8 * s;
    var dstBits: nat := srcBits * r;
    var shiftAmt: nat := 0;
    var e: nat := 0;
    NothingCombined(src, start, Pow2(srcBits));
    var j: nat := 0;
    while j != r
      invariant j <= r && shiftAmt == srcBits * j && AllKnown(src[start..start + j])
      invariant e == FromDigits(Values(src[start..start + j]), Pow2(srcBits))
                && AllBelow(Values(src[start..start + j]), Pow2(srcBits))
    {
      if src[start + j].None? {
        UnknownPart(src, start, j, r);
        return None;
      }
      CombineLittleStep(s, r, src, start, j, srcBits);
      Room(srcBits, j, r);
      e := BitOr(e, src[start + j].value * Pow2(shiftAmt) % Pow2(dstBits));
      shiftAmt := shiftAmt + srcBits;
      j := j + 1;
    }
    elt := Some(e);
  }

  lemma NothingCombined(src: seq<Option<nat>>, start: nat, b: nat)
    requires start <= |src|
    ensures AllKnown(src[start..start + 0]) && Values(src[start..start + 0]) == [] && FromDigits([], b) == 0
            && Reverse([]) == []
  {
  }

  lemma UnknownPart(src: seq<Option<nat>>, start: nat, j: nat, r: nat)
    requires j < r && start + r <= |src| && src[start + j].None?
    ensures !AllKnown(src[start..start + r])
  {
    assert src[start..start + r][j].None?;
  }

  /** The bits below the first j of r parts of k bits. */
  ghost function Free(k: nat, r: nat, j: nat): (n: nat)
    requires j <= r
    ensures j == r ==> n == 0
  {
    MulMono(0, r - j, k);
    k * (r - j)
  }

  lemma FreeLess(k: nat, r: nat, j: nat)
    requires j < r
    ensures Free(k, r, j) == Free(k, r, j + 1) + k && Free(k, r, j) <= k * r && Free(k, r, 0) == k * r
  {
    Dist(r - 1 - j, 1, k);
    MulMono(r - j, r, k);
    assert k * (r - j) == (r - j) * k && k * (r - (j + 1)) == (r - 1 - j) * k;
  }

  lemma CombineBigStep(s: nat, r: nat, src: seq<Option<nat>>, start: nat, j: nat, k: nat, low: nat)
    requires j < r && start + r <= |src| && Fits(src, s) && k == 8 * s && src[start + j].Some?
             && low == Free(k, r, j + 1)
    requires AllKnown(src[start..start + j])
    ensures k * r >= 0 && AllKnown(src[start..start + (j + 1)])
    ensures FromDigits(Reverse(Values(src[start..start + j])), Pow2(k)) * Pow2(low + k) >= 0
    ensures BitOr(FromDigits(Reverse(Values(src[start..start + j])), Pow2(k)) * Pow2(low + k),
              src[start + j].value * Pow2(low) % Pow2(k * r))
            == FromDigits(Reverse(Values(src[start..start + (j + 1)])), Pow2(k)) * Pow2(low)
  {
    hide FromDigits, Power, Pow2, BitOr, Reverse, Free;
    var x := src[start + j].value;
    FitsBits(src, s, start + j);
    FreeLess(k, r, j);
    PutBelow(Values(src[start..start + j]), x, k, low, k * r);
    SliceNext(src, start, j);
    SmallMod(x * Pow2(low), Pow2(k * r));
  }

  method CombineBig(s: nat, r: nat, src: seq<Option<nat>>, start: nat) returns (elt: Option<nat>)
    requires start + r <= |src| && Fits(src, s)
    ensures elt.Some? <==> AllKnown(src[start..start + r])
    ensures elt.Some? ==> elt.value == FromDigits(Reverse(Values(src[start..start + r])), Pow2(8 * s))
  {
    hide FromDigits, Power, Pow2, BitOr, Fits, AllKnown, Values, Reverse, Free;
    var srcBits := 8 * s;
    var dstBits: nat := srcBits * r;
    var shiftAmt: int := srcBits * (r - 1);
    var e: nat := 0;
    NothingCombined(src, start, Pow2(srcBits));
    FreeStart(srcBits, r);
    var j: nat := 0;
    while j != r
      invariant j <= r && shiftAmt + srcBits == Free(srcBits, r, j) && AllKnown(src[start..start + j])
      invariant e == FromDigits(Reverse(Values(src[start..start + j])), Pow2(srcBits)) * Pow2(Free(srcBits, r, j))
    {
      if src[start + j].None? {
        UnknownPart(src, start, j, r);
        return None;
      }
      FreeLess(srcBits, r, j);
      CombineBigStep(s, r, src, start, j, srcBits, shiftAmt);
      e := BitOr(e, src[start + j].value * Pow2(shiftAmt) % Pow2(dstBits));
      shiftAmt := shiftAmt - srcBits;
      j := j + 1;
    }
    PowZero();
    elt := Some(e);
  }

  lemma FreeStart(k: nat, r: nat)
    ensures k * (r - 1) + k == Free(k, r, 0) && k * r >= 0
  {
    Dist(r - 1, 1, k);
    assert k * (r - 1) == (r - 1) * k && k * r == r * k;
  }

  lemma PowZero()
    ensures Pow2(0) == 1
  {
  }

  lemma Room(k: nat, j: nat, r: nat)
    requires j <= r
    ensures k * (j + 1) == k * j + k && k * j >= 0 && (j < r ==> k * j + k <= k * r) && k * (r - 1) == k * r - k
  {
    if j < r { MulMono(j + 1, r, k); }
  }

  /** A further whole element and its parts. */
  lemma PartsNext(little: bool, s: nat, r: nat, xs: seq<nat>, ys: seq<nat>, ds: seq<nat>, y: nat)
    requires Parts(little, s, r, xs, ys) && |ds| == r && forall j :: 0 <= j < r ==> IsPart(little, s, r, ds[j], y, j)
    ensures Parts(little, s, r, xs + ds, ys + [y])
  {
    hide IsPart;
    Dist(|ys|, 1, r);
    forall i: nat, j: nat | i < |ys + [y]| && j < r
      ensures PartAt(little, s, r, xs + ds, ys + [y], i, j)
    {
      if i < |ys| {
        assert PartAt(little, s, r, xs, ys, i, j);
      } else {
        assert IsPart(little, s, r, ds[j], y, j);
      }
    }
  }

  /** Fewer elements, each made of `r` elements of s bytes; what is left of the source is not looked at. */
  method Combine(little: bool, s: nat, r: nat, src: seq<Option<nat>>, numDst: nat) returns (ys: Option<seq<nat>>)
    requires numDst * r <= |src| && Fits(src, s)
    ensures ys.Some? <==> AllKnown(src[..numDst * r])
    ensures ys.Some? ==>
              && |ys.value| == numDst && AllBelow(ys.value, Power(256, r * s))
              && Parts(little, s, r, Values(src[..numDst * r]), ys.value)
  {
    hide FromDigits, Power, Pow2, IsPart, Fits;
    var result: seq<nat> := [];
    var srcElt: nat := 0;
    var i: nat := 0;
    while i != numDst
      invariant i <= numDst && |result| == i && srcElt == i * r <= |src| && AllKnown(src[..srcElt])
      invariant Parts(little, s, r, Values(src[..srcElt]), result) && AllBelow(result, Power(256, r * s))
    {
      NextChunk(i, r, numDst);
      var elt := CombineElement(little, s, r, src, srcElt);
      if elt.None? {
        NotAllKnown(src, srcElt, r, numDst * r);
        return None;
      }
      ElementHasParts(little, s, r, src, srcElt);
      PartsNext(little, s, r, Values(src[..srcElt]), result, Values(src[srcElt..srcElt + r]), elt.value);
      ValuesNext(src, srcElt, r);
      result := result + [elt.value];
      srcElt := srcElt + r;
      i := i + 1;
    }
    ys := Some(result);
  }

  lemma NextChunk(i: nat, r: nat, n: nat)
    requires i < n
    ensures (i + 1) * r == i * r + r <= n * r
  {
    MulMono(i + 1, n, r);
    Dist(i, 1, r);
  }

  lemma NotAllKnown(src: seq<Option<nat>>, start: nat, r: nat, end: nat)
    requires start + r <= end <= |src| && !AllKnown(src[start..start + r])
    ensures !AllKnown(src[..end])
  {
    var j :| 0 <= j < r && !src[start..start + r][j].Some?;
    assert !src[..end][start + j].Some?;
  }

  lemma ValuesNext(src: seq<Option<nat>>, start: nat, r: nat)
    requires start + r <= |src| && AllKnown(src[..start]) && AllKnown(src[start..start + r])
    ensures AllKnown(src[..start + r])
            && Values(src[..start + r]) == Values(src[..start]) + Values(src[start..start + r])
  {
    assert src[..start + r] == src[..start] + src[start..start + r];
  }

  lemma ElementHasParts(little: bool, s: nat, r: nat, src: seq<Option<nat>>, start: nat)
    requires start + r <= |src| && Fits(src, s) && AllKnown(src[start..start + r])
    ensures var ds := Values(src[start..start + r]); var y := FromDigits(Ordered(little, ds), Pow2(8 * s));
            y < Power(256, r * s) && forall j :: 0 <= j < r ==> IsPart(little, s, r, ds[j], y, j)
  {
    hide Power, FromDigits, Pow2, IsPart;
    var ds := Values(src[start..start + r]);
    forall j | 0 <= j < r
      ensures ds[j] < Power(256, s)
    {
      assert src[start + j] == Some(ds[j]);
    }
    ByteShift(s);
    WholeHasParts(little, s, r, ds);
  }

  // ---------------------------------------------------------------- more, narrower elements

  lemma ShiftedPart(s: nat, x: nat, k: nat)
    ensures x / Pow2(8 * s * k) % Pow2(8 * s) == Digit(x, Power(256, s), k)
  {
    PowerOfPow2(8 * s, k);
    ByteShift(s);
  }

  /** The parts of one element in the order of memory. */
  method SplitElement(little: bool, s: nat, r: nat, x: nat) returns (parts: seq<nat>)
    ensures |parts| == r && AllBelow(parts, Power(256, s))
            && forall j :: 0 <= j < r ==> IsPart(little, s, r, parts[j], x, j)
  {
    hide Power, Pow2, Digit;
    var shiftAmt: int := if little then 0 else 8 * s * (r - 1);
    ByteShift(s);
    parts := [];
    var j: nat := 0;
    while j != r
      invariant j <= r && |parts| == j && AllBelow(parts, Power(256, s))
      invariant shiftAmt == if little then 8 * s * j else 8 * s * (r - 1 - j)
      invariant forall i :: 0 <= i < j ==> IsPart(little, s, r, parts[i], x, i)
    {
      var k: nat := Place(little, r, j);
      Room(8 * s, j, r);
      Room(8 * s, r - 1 - j, r);
      ShiftedPart(s, x, k);
      var piece: nat := Piece(x, shiftAmt, 8 * s);
      parts := parts + [piece];
      shiftAmt := if little then shiftAmt + 8 * s else shiftAmt - 8 * s;
      j := j + 1;
    }
  }

  /** The bits of x from a shift on, truncated. */
  function Piece(x: nat, shift: nat, bits: nat): (p: nat)
    ensures p < Pow2(bits)
  {
    x / Pow2(shift) % Pow2(bits)
  }

  /** More elements: r of s bytes for each element of the source. */
  method SplitAll(little: bool, s: nat, r: nat, src: seq<Option<nat>>) returns (ys: Option<seq<nat>>)
    ensures ys.Some? <==> AllKnown(src)
    ensures ys.Some? ==> Parts(little, s, r, ys.value, Values(src)) && AllBelow(ys.value, Power(256, s))
  {
    hide Power, IsPart;
    var result: seq<nat> := [];
    var i: nat := 0;
    while i != |src|
      invariant i <= |src| && AllKnown(src[..i])
      invariant Parts(little, s, r, result, Values(src[..i])) && AllBelow(result, Power(256, s))
    {
      if src[i].None? {
        return None;
      }
      var parts := SplitElement(little, s, r, src[i].value);
      PartsNext(little, s, r, result, Values(src[..i]), parts, src[i].value);
      ValuesNext(src, i, 1);
      assert src[i..i + 1] == [src[i]];
      assert Values(src[i..i + 1]) == [src[i].value];
      result := result + parts;
      i := i + 1;
    }
    assert src[..|src|] == src;
    ys := Some(result);
  }

  // ---------------------------------------------------------------- FoldBitCast

  /** Every byte of every element is d. */
  ghost predicate Uniform(bytes: nat, xs: seq<nat>, d: nat) {
    forall i: nat, u: nat :: i < |xs| && u < bytes ==> Digit(xs[i], 256, u) == d
  }

  lemma UniformByte(little: bool, s: nat, xs: seq<nat>, d: nat, p: nat)
    requires s > 0 && Uniform(s, xs, d)
    ensures Byte(little, Vector(s, xs), p) == Some(if p < s * |xs| then d else 0)
  {
    hide Byte, Digit, Power;
    if p < s * |xs| {
      DivMod(p, s);
      DivAtLeast(p, s, 0);
      WithinWhole(p, p / s, |xs|, s);
      ByteOfVector(little, s, xs, p / s, p % s);
    } else {
      ByteBeyondVector(little, s, xs, p);
    }
  }

  lemma UniformImage(little: bool, m: nat, xs: seq<nat>, n: nat, ys: seq<nat>, d: nat)
    requires m > 0 && n > 0 && Uniform(m, xs, d) && Uniform(n, ys, d) && m * |xs| == n * |ys|
    ensures SameImage(little, m, xs, n, ys)
  {
    hide Byte, Uniform;
    forall p: nat
      ensures Byte(little, Vector(m, xs), p) == Byte(little, Vector(n, ys), p)
    {
      UniformByte(little, m, xs, d, p);
      UniformByte(little, n, ys, d, p);
    }
  }

  function Filled(n: nat, v: nat): (xs: seq<nat>)
    ensures |xs| == n && forall i :: 0 <= i < n ==> xs[i] == v
  {
    seq(n, i => v)
  }

  lemma ZeroDigits(bytes: nat, xs: seq<nat>)
    requires forall i :: 0 <= i < |xs| ==> xs[i] == 0
    ensures Uniform(bytes, xs, 0)
  {
    forall i: nat, u: nat | i < |xs| && u < bytes
      ensures Digit(xs[i], 256, u) == 0
    {
      DivIs(0, Power(256, u), 0, 0);
    }
  }

  lemma {:induction false} OnesAre(n: nat)
    ensures FromDigits(Filled(n, 255), 256) == Power(256, n) - 1
    decreases n
  {
    if n > 0 {
      assert Filled(n, 255)[1..] == Filled(n - 1, 255);
      OnesAre(n - 1);
    }
  }

  lemma OnesDigits(bytes: nat, xs: seq<nat>)
    requires forall i :: 0 <= i < |xs| ==> xs[i] == Power(256, bytes) - 1
    ensures Uniform(bytes, xs, 255)
  {
    hide Digit, Power, FromDigits;
    OnesAre(bytes);
    forall i: nat, u: nat | i < |xs| && u < bytes
      ensures Digit(xs[i], 256, u) == 255
    {
      DigitFromDigits(Filled(bytes, 255), 256, u);
    }
  }

  predicate AllAre(xs: seq<nat>, x: nat) {
    forall i :: 0 <= i < |xs| ==> xs[i] == x
  }

  /** What the code makes of a vector of integers of m bytes as b integers of n bytes: zeros and ones stay
      what they are; otherwise as many whole elements as fit are taken together, or every element is taken
      apart into as many as fit. */
  ghost predicate IsFold(little: bool, m: nat, xs: seq<nat>, n: nat, b: nat, r: seq<nat>)
    requires xs != [] && b > 0
  {
    if AllAre(xs, 0) then r == Filled(b, 0)
    else if AllAre(xs, Power(256, m) - 1) then r == Filled(b, Power(256, n) - 1)
    else if b == |xs| then r == xs
    else if b < |xs| then
      && b * (|xs| / b) <= |xs| && |r| == b && AllBelow(r, Power(256, |xs| / b * m))
      && Parts(little, m, |xs| / b, xs[..b * (|xs| / b)], r)
    else Parts(little, n, b / |xs|, r, xs) && AllBelow(r, Power(256, n))
  }

  /** The result is a vector of the type asked for that occupies memory as the source does. */
  ghost predicate FoldedRight(little: bool, m: nat, xs: seq<nat>, n: nat, b: nat, r: seq<nat>) {
    |r| == b && AllBelow(r, Power(256, n)) && SameImage(little, m, xs, n, r)
  }

  lemma WholeFits(a: nat, b: nat)
    requires b > 0
    ensures b * (a / b) <= a && (a % b == 0 <==> b * (a / b) == a)
  {
    DivMod(a, b);
    DivAtLeast(a, b, 0);
    assert a / b * b == b * (a / b);
  }

  /** The elements that come to n equal groups. */
  function Whole<T>(s: seq<T>, n: nat): seq<T>
    requires n > 0
  {
    WholeFits(|s|, n);
    s[..n * (|s| / n)]
  }

  lemma WholeKnown(src: seq<Option<nat>>, n: nat)
    requires n > 0 && AllKnown(src)
    ensures AllKnown(Whole(src, n))
  {
    WholeFits(|src|, n);
  }

  /** A vector of |src| integers of m bytes as one of numDst integers of n bytes.  If one of the numbers of
      elements divides the other it is folded exactly if every element is an integer, and then rightly. */
  method FoldBitCast(little: bool, m: nat, src: seq<Option<nat>>, n: nat, numDst: nat) returns (r: Option<seq<nat>>)
    requires m > 0 && n > 0 && src != [] && numDst > 0 && m * |src| == n * numDst && Fits(src, m)
    ensures r.Some? <==> AllKnown(if numDst < |src| then Whole(src, numDst) else src)
    ensures AllKnown(src) ==> r.Some? && IsFold(little, m, Values(src), n, numDst, r.value)
    ensures |src| % numDst == 0 || numDst % |src| == 0 ==>
              && (r.Some? <==> AllKnown(src))
              && (r.Some? ==> FoldedRight(little, m, Values(src), n, numDst, r.value))
  {
    hide Power, Byte, Parts, SameImage, Uniform, FoldedRight, AllBelow;
    if AllKnown(src) { WholeKnown(src, numDst); }
    if forall i :: 0 <= i < |src| ==> src[i] == Some(0) {
      r := Some(Filled(numDst, 0));
    } else if forall i :: 0 <= i < |src| ==> src[i] == Some(Power(256, m) - 1) {
      r := Some(Filled(numDst, Power(256, n) - 1));
    } else if numDst == |src| {
      r := if AllKnown(src) then Some(Values(src)) else None;
    } else if numDst < |src| {
      var ratio := |src| / numDst;
      WholeFits(|src|, numDst);
      r := Combine(little, m, ratio, src, numDst);
      if AllKnown(src) {
        ValuesPrefix(src, numDst * ratio);
      }
      if |src| % numDst == 0 {
        assert src[..numDst * ratio] == src;
      }
    } else {
      var ratio := numDst / |src|;
      r := SplitAll(little, n, ratio, src);
    }
    if AllKnown(src) {
      ValuesFit(src, m);
      SourceIsUniform(src, 0);
      SourceIsUniform(src, Power(256, m) - 1);
      if |src| % numDst == 0 || numDst % |src| == 0 {
        FoldIsRight(little, m, Values(src), n, numDst, r.value);
      }
    } else if |src| % numDst == 0 || numDst % |src| == 0 {
      if numDst < |src| { DividesMore(|src|, numDst); }
    }
  }

  lemma ValuesPrefix(src: seq<Option<nat>>, k: nat)
    requires AllKnown(src) && k <= |src|
    ensures AllKnown(src[..k]) && Values(src[..k]) == Values(src)[..k]
  {
  }

  lemma ValuesFit(src: seq<Option<nat>>, bytes: nat)
    requires AllKnown(src) && Fits(src, bytes)
    ensures AllBelow(Values(src), Power(256, bytes))
  {
    hide Power;
    forall i | 0 <= i < |src|
      ensures Values(src)[i] < Power(256, bytes)
    {
      assert src[i] == Some(Values(src)[i]);
    }
  }

  lemma SourceIsUniform(src: seq<Option<nat>>, x: nat)
    requires AllKnown(src)
    ensures AllAre(Values(src), x) <==> forall i :: 0 <= i < |src| ==> src[i] == Some(x)
  {
    if AllAre(Values(src), x) {
      forall i | 0 <= i < |src|
        ensures src[i] == Some(x)
      {
        assert Values(src)[i] == x;
      }
    }
  }

  /** A smaller number that divides or is divided by a larger one divides it. */
  lemma DividesMore(a: nat, b: nat)
    requires 0 < b < a && (a % b == 0 || b % a == 0)
    ensures a % b == 0
  {
    if a % b != 0 { DivIs(b, a, 0, b); }
  }

  /** If one number of elements divides the other the result is right. */
  lemma FoldIsRight(little: bool, m: nat, xs: seq<nat>, n: nat, b: nat, r: seq<nat>)
    requires m > 0 && n > 0 && xs != [] && b > 0 && m * |xs| == n * b && AllBelow(xs, Power(256, m))
    requires |xs| % b == 0 || b % |xs| == 0
    requires IsFold(little, m, xs, n, b, r)
    ensures FoldedRight(little, m, xs, n, b, r)
  {
    hide Power, Byte, Parts, SameImage, Uniform;
    if AllAre(xs, 0) {
      ZeroDigits(m, xs);
      ZeroDigits(n, r);
      UniformImage(little, m, xs, n, r, 0);
    } else if AllAre(xs, Power(256, m) - 1) {
      OnesDigits(m, xs);
      OnesDigits(n, r);
      UniformImage(little, m, xs, n, r, 255);
    } else if b == |xs| {
      DivIs(m * |xs|, |xs|, m, 0);
      DivIs(n * |xs|, |xs|, n, 0);
      SameAsItself(little, m, xs);
    } else if b < |xs| {
      RatioIs(m, |xs|, n, b);
      assert xs[..b * (|xs| / b)] == xs;
      PartsImage(little, m, |xs| / b, xs, r);
    } else {
      RatioIs(n, b, m, |xs|);
      PartsImage(little, n, b / |xs|, r, xs);
      ImageFlips(little, n, r, m, xs);
      PartsCount(little, n, b / |xs|, r, xs);
    }
  }

  lemma SameAsItself(little: bool, m: nat, xs: seq<nat>)
    ensures SameImage(little, m, xs, m, xs)
  {
    hide Byte;
  }

  // ---------------------------------------------------------------- numbers of elements that do not divide

  /** All elements zero but the last. */
  function LastOne(a: nat): (xs: seq<nat>)
    requires a > 0
    ensures |xs| == a && forall i :: 0 <= i < a ==> xs[i] == if i == a - 1 then 1 else 0
  {
    Filled(a - 1, 0) + [1]
  }

  lemma LastOneMixed(m: nat, a: nat)
    requires m > 0 && a > 1
    ensures !AllAre(LastOne(a), 0) && !AllAre(LastOne(a), Power(256, m) - 1) && AllBelow(LastOne(a), Power(256, m))
  {
    hide Power;
    PowerAtLeast(m);
    assert LastOne(a)[a - 1] == 1 && LastOne(a)[0] == 0;
  }

  lemma PowerAtLeast(m: nat)
    requires m > 0
    ensures Power(256, m) >= 256
  {
  }

  /** With fewer elements the last one of the source is dropped. */
  lemma LastIsDropped(little: bool, m: nat, a: nat, n: nat, b: nat)
    requires m > 0 && n > 0 && 0 < b < a && a % b != 0
    ensures IsFold(little, m, LastOne(a), n, b, Filled(b, 0)) && !FoldedRight(little, m, LastOne(a), n, b, Filled(b, 0))
  {
    hide Power, Byte, Digit;
    var xs, r, q := LastOne(a), Filled(b, 0), a / b;
    LastOneMixed(m, a);
    WholeFits(a, b);
    DivAtLeast(a, b, 0);
    MulAtLeast(q, m);
    ZeroParts(little, m, q, xs[..b * q], r);
    var p := (a - 1) * m + Place(little, m, 0);
    ByteOfVector(little, m, xs, a - 1, Place(little, m, 0));
    LowByte();
    assert Place(little, m, Place(little, m, 0)) == 0;
    ZeroDigits(n, r);
    UniformByte(little, n, r, 0, p);
  }

  lemma MulAtLeast(a: nat, b: nat)
    ensures a * b >= 0
  {
  }

  lemma LowByte()
    ensures Digit(1, 256, 0) == 1
  {
  }

  lemma ZeroParts(little: bool, s: nat, r: nat, xs: seq<nat>, ys: seq<nat>)
    requires AllAre(xs, 0) && AllAre(ys, 0) && |xs| == |ys| * r
    ensures Parts(little, s, r, xs, ys)
  {
    hide Power, Digit;
    forall i: nat, j: nat | i < |ys| && j < r
      ensures PartAt(little, s, r, xs, ys, i, j)
    {
      NextChunk(i, r, |ys|);
      ZeroDigit(Power(256, s), Place(little, r, j));
    }
  }

  lemma ZeroDigit(b: nat, k: nat)
    requires b > 0
    ensures Digit(0, b, k) == 0
  {
    DivIs(0, Power(b, k), 0, 0);
  }

  lemma DigitBelow(x: nat, b: nat, k: nat)
    requires b > 0
    ensures Digit(x, b, k) < b
  {
    hide Power;
  }

  /** Every element taken apart. */
  function TakenApart(little: bool, s: nat, r: nat, ys: seq<nat>): (xs: seq<nat>)
    ensures |xs| == |ys| * r
  {
    if r == 0 then []
    else seq(|ys| * r, k requires 0 <= k < |ys| * r => PartOf(little, s, r, ys, k))
  }

  function PartOf(little: bool, s: nat, r: nat, ys: seq<nat>, k: nat): nat
    requires r > 0 && k < |ys| * r
  {
    WithinWhole(k, k / r, |ys|, r);
    Digit(ys[k / r], Power(256, s), Place(little, r, k % r))
  }

  lemma TakenApartParts(little: bool, s: nat, r: nat, ys: seq<nat>)
    ensures Parts(little, s, r, TakenApart(little, s, r, ys), ys)
            && AllBelow(TakenApart(little, s, r, ys), Power(256, s))
  {
    hide Power, Digit;
    forall i: nat, j: nat | i < |ys| && j < r
      ensures PartAt(little, s, r, TakenApart(little, s, r, ys), ys, i, j)
    {
      NextChunk(i, r, |ys|);
      DivIs(i * r + j, r, i, j);
    }
    forall k | 0 <= k < |ys| * r
      ensures TakenApart(little, s, r, ys)[k] < Power(256, s)
    {
      DigitBelow(ys[k / r], Power(256, s), Place(little, r, k % r));
    }
  }

  /** With more elements there are too few of them. */
  lemma TooFewElements(little: bool, m: nat, a: nat, n: nat, b: nat) returns (r: seq<nat>)
    requires m > 0 && n > 0 && 1 < a < b && b % a != 0
    ensures IsFold(little, m, LastOne(a), n, b, r) && !FoldedRight(little, m, LastOne(a), n, b, r)
  {
    hide Power, Byte, Digit, Parts, SameImage;
    LastOneMixed(m, a);
    WholeFits(b, a);
    r := TakenApart(little, n, b / a, LastOne(a));
    TakenApartParts(little, n, b / a, LastOne(a));
  }

  /** For vectors of a integers of m bytes as b integers of n bytes the result is always right if, and only
      if, one of the numbers of elements divides the other. */
  lemma FoldRightIff(little: bool, m: nat, a: nat, n: nat, b: nat)
    requires m > 0 && n > 0 && a > 0 && b > 0 && m * a == n * b
    ensures (forall xs, r {:trigger IsFold(little, m, xs, n, b, r)} ::
               |xs| == a && AllBelow(xs, Power(256, m)) && IsFold(little, m, xs, n, b, r) ==>
                   FoldedRight(little, m, xs, n, b, r))
            <==> a % b == 0 || b % a == 0
  {
    hide Power, IsFold, FoldedRight;
    if a % b == 0 || b % a == 0 {
      forall xs, r | |xs| == a && AllBelow(xs, Power(256, m)) && IsFold(little, m, xs, n, b, r)
        ensures FoldedRight(little, m, xs, n, b, r)
      {
        FoldIsRight(little, m, xs, n, b, r);
      }
    } else if b < a {
      LastOneMixed(m, a);
      LastIsDropped(little, m, a, n, b);
    } else {
      LastOneMixed(m, a);
      var r := TooFewElements(little, m, a, n, b);
    }
  }

  /** Three integers of 16 bits as two of 24: the third is lost. */
  lemma ThirdIsLost(little: bool)
    ensures IsFold(little, 2, [0, 0, 1], 3, 2, [0, 0]) && !FoldedRight(little, 2, [0, 0, 1], 3, 2, [0, 0])
  {
    assert LastOne(3) == [0, 0, 1] && Filled(2, 0) == [0, 0];
    LastIsDropped(little, 2, 3, 3, 2);
  }

  lemma RatioIs(m: nat, a: nat, n: nat, b: nat)
    requires m > 0 && n > 0 && b > 0 && b < a && (a % b == 0 || b % a == 0) && m * a == n * b
    ensures a / b > 0 && a == b * (a / b) && n == a / b * m
  {
    if a % b != 0 { DivIs(b, a, 0, b); }
    DivMod(a, b);
    var q := a / b;
    assert q * b == b * q;
    DivAtLeast(a, b, 1);
    assert m * (q * b) == m * q * b;
    DivIs(n * b, b, n, 0);
    DivIs(m * q * b, b, m * q, 0);
    assert m * q == q * m;
  }

  lemma ImageFlips(little: bool, m: nat, xs: seq<nat>, n: nat, ys: seq<nat>)
    requires SameImage(little, m, xs, n, ys)
    ensures SameImage(little, n, ys, m, xs)
  {
    hide Byte;
  }

  lemma PartsCount(little: bool, s: nat, r: nat, xs: seq<nat>, ys: seq<nat>)
    requires Parts(little, s, r, xs, ys)
    ensures |xs| == |ys| * r
  {
    hide PartAt;
  }

  // ---------------------------------------------------------------- a vector as one integer

  /** Shifting a number up makes room for a further lowest digit. */
  lemma PutFirst(ds: seq<nat>, x: nat, k: nat, dst: nat)
    requires AllBelow(ds, Pow2(k)) && x < Pow2(k) && k * |ds| + k <= dst
    ensures AllBelow([x] + ds, Pow2(k)) && FromDigits(ds, Pow2(k)) * Pow2(k) < Pow2(dst)
    ensures BitOr(FromDigits(ds, Pow2(k)) * Pow2(k) % Pow2(dst), x) == FromDigits([x] + ds, Pow2(k))
  {
    hide FromDigits, Power, Pow2, BitOr;
    var v := FromDigits(ds, Pow2(k));
    PowerOfPow2(k, |ds|);
    FromDigitsBelow(ds, Pow2(k));
    BelowShifted(v, k * |ds|, k, dst);
    SmallMod(v * Pow2(k), Pow2(dst));
    OrOfApart(v, x, k);
    NextAbove(x, ds, Pow2(k));
  }

  /** The digits put together after i steps, the lowest first. */
  ghost function Taken(little: bool, xs: seq<nat>, i: nat): (ds: seq<nat>)
    requires i <= |xs|
    ensures |ds| == i
  {
    if little then xs[|xs| - i..] else Reverse(xs[..i])
  }

  lemma TakenNext(little: bool, xs: seq<nat>, i: nat)
    requires i < |xs|
    ensures Taken(little, xs, i + 1) == [if little then xs[|xs| - i - 1] else xs[i]] + Taken(little, xs, i)
  {
    if !little { ReverseNext(xs, i); }
  }

  lemma TakenAll(little: bool, xs: seq<nat>)
    ensures Taken(little, xs, |xs|) == Ordered(little, xs) && Taken(little, xs, 0) == []
  {
    assert xs[0..] == xs && xs[..|xs|] == xs;
  }

  /** A vector of integers of s bytes as one integer with the same image. */
  method FoldToInteger(little: bool, s: nat, xs: seq<nat>) returns (v: nat)
    requires s > 0 && xs != [] && AllBelow(xs, Power(256, s))
    ensures v < Power(256, |xs| * s) && SameImage(little, s, xs, |xs| * s, [v])
  {
    hide FromDigits, Power, Pow2, BitOr, Taken, SameImage, Ordered;
    var bitShift := 8 * s;
    var dstBits: nat := bitShift * |xs|;
    ByteShift(s);
    TakenAll(little, xs);
    NoValue(Pow2(bitShift));
    v := 0;
    var i: nat := 0;
    while i != |xs|
      invariant i <= |xs| && v == FromDigits(Taken(little, xs, i), Pow2(bitShift))
                && AllBelow(Taken(little, xs, i), Pow2(bitShift))
    {
      Room(bitShift, i, |xs|);
      TakenNext(little, xs, i);
      var x := if little then xs[|xs| - i - 1] else xs[i];
      PutFirst(Taken(little, xs, i), x, bitShift, dstBits);
      v := BitOr(v * Pow2(bitShift) % Pow2(dstBits), x);
      i := i + 1;
    }
    OneElement(little, s, xs, v);
  }

  lemma NoValue(b: nat)
    ensures FromDigits([], b) == 0
  {
  }

  lemma OneElement(little: bool, s: nat, xs: seq<nat>, v: nat)
    requires s > 0 && xs != [] && AllBelow(xs, Power(256, s)) && v == FromDigits(Ordered(little, xs), Power(256, s))
    ensures v < Power(256, |xs| * s) && SameImage(little, s, xs, |xs| * s, [v])
  {
    hide FromDigits, Power, IsPart, Byte;
    WholeHasParts(little, s, |xs|, xs);
    NoParts(little, s, |xs|);
    PartsNext(little, s, |xs|, [], [], xs, v);
    assert [] + xs == xs && [] + [v] == [v];
    PartsImage(little, s, |xs|, xs, [v]);
  }

  lemma NoParts(little: bool, s: nat, r: nat)
    ensures Parts(little, s, r, [], [])
  {
  }
}
