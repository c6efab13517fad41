// ConstantFolding.cpp: bytes are read out of nested constants, loads are folded from them, and integer
// vectors are reinterpreted with another number of elements.
module ConstantFolding {
  import opened MachineIntegers
  import opened Options
  import opened MemoryImage

  // ---------------------------------------------------------------- ReadDataFromGlobal

  lemma {:induction false} ByteShift(n: nat)
    ensures Pow2(8 * n) == Power(256, n)
    decreases n
  {
    if n > 0 {
      ByteShift(n - 1);
      Pow2Adds(8, 8 * (n - 1));
      assert Pow2(8) == 256;
    }
  }

  /** The last field that starts at or before the offset. */
  function ElementContainingOffset(fields: seq<(nat, Const)>, offset: nat): (k: nat)
    requires fields != [] && fields[0].0 <= offset
    ensures k < |fields| && fields[k].0 <= offset
    decreases |fields|
  {
    if fields[|fields| - 1].0 <= offset then |fields| - 1 else ElementContainingOffset(fields[..|fields| - 1], offset)
  }

  lemma {:induction false} ContainingIsLast(fields: seq<(nat, Const)>, offset: nat)
    requires fields != [] && fields[0].0 <= offset
    requires forall i, j :: 0 <= i < j < |fields| ==> fields[i].0 <= fields[j].0
    ensures forall m :: ElementContainingOffset(fields, offset) < m < |fields| ==> offset < fields[m].0
    decreases |fields|
  {
    var n := |fields| - 1;
    if fields[n].0 > offset {
      ContainingIsLast(fields[..n], offset);
      forall m | ElementContainingOffset(fields, offset) < m < |fields|
        ensures offset < fields[m].0
      {
        if m < n { assert fields[..n][m] == fields[m]; }
      }
    }
  }

  /** What reading at an offset puts at distance i: the byte, or nothing beyond the end. */
  function Slice(little: bool, c: Const, offset: nat, i: nat): Option<nat> {
    if offset + i < AllocSize(c) then Byte(little, c, offset + i) else Some(0)
  }

  ghost predicate SliceKnown(little: bool, c: Const, offset: nat, n: nat) {
    forall i :: 0 <= i < n ==> Slice(little, c, offset, i).Some?
  }

  /** The first n bytes of the slice are in the buffer from cur on. */
  ghost predicate HasSlice(little: bool, c: Const, offset: nat, b: seq<nat>, cur: nat, n: nat) {
    cur + n <= |b| && forall i :: 0 <= i < n ==> Slice(little, c, offset, i) == Some(b[cur + i])
  }

  ghost predicate AllZero(b: seq<nat>, from: nat, to: nat) {
    to <= |b| && forall i :: from <= i < to ==> b[i] == 0
  }

  /** Zeros and undef leave the zeroed buffer as it is. */
  lemma ZeroSlice(little: bool, c: Const, offset: nat, b: seq<nat>, cur: nat, n: nat)
    requires c.Zero? && AllZero(b, cur, cur + n)
    ensures HasSlice(little, c, offset, b, cur, n) && SliceKnown(little, c, offset, n)
  {
    forall i | 0 <= i < n
      ensures Slice(little, c, offset, i) == Some(b[cur + i])
    {
    }
  }

  lemma UnknownSlice(little: bool, c: Const, offset: nat, n: nat)
    requires c.Unknown? && offset < AllocSize(c) && n > 0
    ensures !SliceKnown(little, c, offset, n)
  {
    assert Slice(little, c, offset, 0).None?;
  }

  /** A pointer made from an integer has the bytes of the integer. */
  lemma PointerSlice(little: bool, c: Const, offset: nat)
    requires c.IntToPtr?
    ensures forall i: nat :: Slice(little, c, offset, i) == Slice(little, c.c, offset, i)
  {
  }

  /** Reads `left` bytes of c from `offset` on into a zeroed part of the buffer.  It succeeds exactly if all
      these bytes are known, and then the buffer holds them; nothing else in the buffer changes. */
  method ReadDataFromGlobal(little: bool, c: Const, offset: nat, buf: array<nat>, cur: nat, left: nat)
    returns (ok: bool)
    requires Laid(c) && offset <= AllocSize(c) && AllZero(buf[..], cur, cur + left)
    modifies buf
    ensures forall i :: 0 <= i < buf.Length && !(cur <= i < cur + left) ==> buf[i] == old(buf[i])
    ensures ok ==> HasSlice(little, c, offset, buf[..], cur, left) && SliceKnown(little, c, offset, left)
    ensures offset < AllocSize(c) && left > 0 && !ok ==> !SliceKnown(little, c, offset, left)
    decreases c, 1
  {
    match c {
      case Zero(_) =>
        ZeroSlice(little, c, offset, buf[..], cur, left);
        ok := true;
      case Int(n, v) =>
        ok := ReadInt(little, c, offset, buf, cur, left);
        AllRead(little, c, offset, buf[..], cur, left);
      case Struct(_, fields) =>
        ok := ReadStruct(little, c, offset, buf, cur, left);
      case Array(s, elts) =>
        ok := ReadArray(little, c, offset, buf, cur, left);
      case IntToPtr(d) =>
        PointerSlice(little, c, offset);
        ok := ReadDataFromGlobal(little, d, offset, buf, cur, left);
      case Unknown(_) =>
        if offset < AllocSize(c) && left > 0 { UnknownSlice(little, c, offset, left); }
        ok := false;
    }
  }

  method ReadInt(little: bool, c: Const, offset: nat, buf: array<nat>, cur: nat, left: nat) returns (ok: bool)
    requires c.Int? && Laid(c) && offset <= AllocSize(c) && AllZero(buf[..], cur, cur + left)
    modifies buf
    ensures forall i :: 0 <= i < buf.Length && !(cur <= i < cur + left) ==> buf[i] == old(buf[i])
    ensures ok && HasSlice(little, c, offset, buf[..], cur, left)
    decreases c, 0
  {
    var at := offset;
    var i := 0;
    while i != left && at != c.bytes
      invariant 0 <= i <= left && at == offset + i <= c.bytes
      invariant forall j :: 0 <= j < buf.Length && !(cur <= j < cur + i) ==> buf[j] == old(buf[j])
      invariant HasSlice(little, c, offset, buf[..], cur, i)
      decreases left - i
    {
      var n := if little then at else c.bytes - at - 1;
      ByteShift(n);
      buf[cur + i] := c.value / Pow2(8 * n) % 256;
      at := at + 1;
      i := i + 1;
    }
    return true;
  }

  /** Up to the next field, the structure has the bytes of the field and then zeros. */
  lemma FieldSlice(little: bool, c: Const, index: nat, offset: nat, done: nat, e: nat)
    requires c.Struct? && Laid(c) && index < |c.fields| && c.fields[index].0 <= offset + done
    requires forall m :: index < m < |c.fields| ==> offset + done + e < c.fields[m].0
    ensures Slice(little, c, offset, done + e) == Slice(little, c.fields[index].1, offset + done - c.fields[index].0, e)
  {
    FieldByteIs(little, c, |c.fields|, index, offset + done + e);
  }

  /** Beyond its end a constant gives zeros. */
  lemma BeyondEnd(little: bool, c: Const, offset: nat, e: nat)
    requires offset + e >= AllocSize(c)
    ensures Slice(little, c, offset, e) == Some(0)
  {
  }

  lemma FieldsApart(c: Const, i: nat, j: nat)
    requires c.Struct? && Laid(c) && i < j < |c.fields|
    ensures c.fields[i].0 + AllocSize(c.fields[i].1) <= c.fields[j].0
  {
  }

  lemma FieldLaid(c: Const, i: nat)
    requires c.Struct? && Laid(c) && i < |c.fields|
    ensures Laid(c.fields[i].1) && c.fields[i].1 < c && c.fields[i].0 + AllocSize(c.fields[i].1) <= AllocSize(c)
  {
  }

  /** The slice of c from distance `done` on is, at distance e more, the slice of one part of it. */
  ghost predicate SameSlice(little: bool, c: Const, offset: nat, done: nat, elt: Const, at: nat, e: nat) {
    Slice(little, c, offset, done + e) == Slice(little, elt, at, e)
  }

  ghost predicate SameStretch(little: bool, c: Const, offset: nat, done: nat, elt: Const, at: nat, step: nat) {
    forall e: nat :: e < step ==> SameSlice(little, c, offset, done, elt, at, e)
  }

  /** What was read of a part is read of c; what follows in the buffer is still zero. */
  lemma StretchRead(little: bool, c: Const, offset: nat, elt: Const, at: nat, b: seq<nat>, cur: nat, done: nat,
                    step: nat, rest: nat)
    requires step <= rest && HasSlice(little, elt, at, b, cur + done, rest) && HasSlice(little, c, offset, b, cur, done)
    requires SameStretch(little, c, offset, done, elt, at, step) && (at + step >= AllocSize(elt) || step == rest)
    ensures HasSlice(little, c, offset, b, cur, done + step) && AllZero(b, cur + done + step, cur + done + rest)
  {
    hide Slice;
    forall i | 0 <= i < done + step
      ensures Slice(little, c, offset, i) == Some(b[cur + i])
    {
      if i >= done {
        assert SameSlice(little, c, offset, done, elt, at, i - done);
        assert b[cur + done + (i - done)] == b[cur + i];
      }
    }
    forall i | cur + done + step <= i < cur + done + rest
      ensures b[i] == 0
    {
      BeyondEnd(little, elt, at, i - cur - done);
      assert Slice(little, elt, at, i - cur - done) == Some(b[cur + done + (i - cur - done)]);
    }
  }

  /** A byte of a part that is not known is not known of c. */
  lemma StretchUnknown(little: bool, c: Const, offset: nat, done: nat, elt: Const, at: nat, step: nat, rest: nat)
    requires !SliceKnown(little, elt, at, rest) && step <= rest
    requires SameStretch(little, c, offset, done, elt, at, step) && (at + step >= AllocSize(elt) || step == rest)
    ensures !SliceKnown(little, c, offset, done + rest)
  {
    hide Slice;
    var e :| 0 <= e < rest && !Slice(little, elt, at, e).Some?;
    if e >= step { BeyondEnd(little, elt, at, e); }
    assert SameSlice(little, c, offset, done, elt, at, e);
    assert Slice(little, c, offset, done + e).None?;
  }

  /** Beyond the end of a part there is nothing to read and nothing that is not known. */
  lemma NothingBeyond(little: bool, elt: Const, at: nat, b: seq<nat>, cur: nat, n: nat)
    requires at >= AllocSize(elt) && AllZero(b, cur, cur + n)
    ensures HasSlice(little, elt, at, b, cur, n)
  {
    forall e | 0 <= e < n
      ensures Slice(little, elt, at, e) == Some(b[cur + e])
    {
      BeyondEnd(little, elt, at, e);
    }
  }

  lemma KeptSlice(little: bool, c: Const, offset: nat, was: seq<nat>, now: seq<nat>, cur: nat, done: nat)
    requires HasSlice(little, c, offset, was, cur, done) && |now| == |was|
             && forall i :: 0 <= i < cur + done ==> now[i] == was[i]
    ensures HasSlice(little, c, offset, now, cur, done)
  {
    hide Slice;
  }

  lemma NothingRead(little: bool, c: Const, offset: nat, b: seq<nat>, cur: nat)
    requires cur <= |b|
    ensures HasSlice(little, c, offset, b, cur, 0)
  {
  }

  lemma AllRead(little: bool, c: Const, offset: nat, b: seq<nat>, cur: nat, n: nat)
    requires HasSlice(little, c, offset, b, cur, n)
    ensures SliceKnown(little, c, offset, n)
  {
    hide Slice;
  }

  lemma FieldStretch(little: bool, c: Const, index: nat, offset: nat, done: nat, step: nat)
    requires c.Struct? && Laid(c) && index < |c.fields| && c.fields[index].0 <= offset + done
    requires index + 1 < |c.fields| ==> offset + done + step <= c.fields[index + 1].0
    ensures SameStretch(little, c, offset, done, c.fields[index].1, offset + done - c.fields[index].0, step)
  {
    var elt, at: nat := c.fields[index].1, offset + done - c.fields[index].0;
    forall e: nat | e < step
      ensures SameSlice(little, c, offset, done, elt, at, e)
    {
      forall m | index < m < |c.fields|
        ensures offset + done + e < c.fields[m].0
      {
        if m > index + 1 { FieldsApart(c, index + 1, m); }
      }
      FieldSlice(little, c, index, offset, done, e);
    }
  }

  method ReadStruct(little: bool, c: Const, offset: nat, buf: array<nat>, cur: nat, left: nat) returns (ok: bool)
    requires c.Struct? && Laid(c) && offset <= AllocSize(c) && AllZero(buf[..], cur, cur + left)
    modifies buf
    ensures forall i :: 0 <= i < buf.Length && !(cur <= i < cur + left) ==> buf[i] == old(buf[i])
    ensures ok ==> HasSlice(little, c, offset, buf[..], cur, left) && SliceKnown(little, c, offset, left)
    ensures !ok && left > 0 ==> !SliceKnown(little, c, offset, left)
    decreases c, 0
  {
    hide Laid, Slice, HasSlice, SliceKnown;
    StructStarts(c, offset);
    var index := ElementContainingOffset(c.fields, offset);
    var curEltOffset := c.fields[index].0;
    var byteOffset: nat := offset - curEltOffset;
    var ptr: nat, rest: nat := cur, left;
    ghost var done: nat := 0;
    NothingRead(little, c, offset, buf[..], cur);
    while true
      invariant index < |c.fields| && curEltOffset == c.fields[index].0 && ptr == cur + done && done + rest == left
      invariant curEltOffset + byteOffset == offset + done
                && (forall m :: index < m < |c.fields| ==> offset + done <= c.fields[m].0)
      invariant forall i :: 0 <= i < buf.Length && !(cur <= i < cur + left) ==> buf[i] == old(buf[i])
      invariant HasSlice(little, c, offset, buf[..], cur, done) && AllZero(buf[..], ptr, ptr + rest)
                && (left > 0 ==> rest > 0)
      decreases |c.fields| - index
    {
      FieldLaid(c, index);
      if index + 1 < |c.fields| { FieldsApart(c, index, index + 1); }
      var elt := c.fields[index].1;
      ghost var gap: nat := if index + 1 < |c.fields| then c.fields[index + 1].0 - curEltOffset - byteOffset else rest;
      ghost var step: nat := if gap < rest then gap else rest;
      ghost var was := buf[..];
      FieldStretch(little, c, index, offset, done, step);
      if byteOffset < AllocSize(elt) {
        var read := ReadDataFromGlobal(little, elt, byteOffset, buf, ptr, rest);
        if !read {
          if left > 0 { StretchUnknown(little, c, offset, done, elt, byteOffset, step, rest); }
          return false;
        }
      } else {
        NothingBeyond(little, elt, byteOffset, buf[..], ptr, rest);
      }
      KeptSlice(little, c, offset, was, buf[..], cur, done);
      StretchRead(little, c, offset, elt, byteOffset, buf[..], cur, done, step, rest);
      index := index + 1;
      if index == |c.fields| {
        AllRead(little, c, offset, buf[..], cur, left);
        return true;
      }
      var nextEltOffset := c.fields[index].0;
      if rest <= nextEltOffset - curEltOffset - byteOffset {
        AllRead(little, c, offset, buf[..], cur, left);
        return true;
      }
      FieldsAfter(c, index);
      ptr := ptr + (nextEltOffset - curEltOffset - byteOffset);
      rest := rest - (nextEltOffset - curEltOffset - byteOffset);
      done := done + step;
      byteOffset := 0;
      curEltOffset := nextEltOffset;
    }
  }

  lemma FieldsAfter(c: Const, index: nat)
    requires c.Struct? && Laid(c) && index < |c.fields|
    ensures forall m :: index < m < |c.fields| ==> c.fields[index].0 <= c.fields[m].0
  {
  }

  lemma StructStarts(c: Const, offset: nat)
    requires c.Struct? && Laid(c)
    ensures c.fields != [] && c.fields[0].0 <= offset
    ensures forall m :: ElementContainingOffset(c.fields, offset) < m < |c.fields| ==> offset < c.fields[m].0
  {
    ContainingIsLast(c.fields, offset);
  }

  /** Element k, from the place that has been reached in it. */
  lemma ElementSlice(little: bool, c: Const, k: nat, offset: nat, done: nat, e: nat)
    requires c.Array? && Laid(c) && k < |c.elts| && offset + done >= c.stride * k
             && offset + done + e < c.stride * (k + 1)
    ensures Slice(little, c, offset, done + e) == Slice(little, c.elts[k], offset + done - c.stride * k, e)
  {
    ElementLaid(c, k);
    ArrayStride(c);
    hide Laid;
    var p := offset + done + e;
    NextElement(c.stride, k);
    DivIs(p, c.stride, k, p - c.stride * k);
    MulMono(k + 1, |c.elts|, c.stride);
    ElementByte(little, c, k, p);
  }

  lemma ElementByte(little: bool, c: Const, k: nat, p: nat)
    requires c.Array? && c.stride > 0 && k < |c.elts| && p / c.stride == k && p % c.stride == p - c.stride * k
    ensures Byte(little, c, p) == Byte(little, c.elts[k], p - c.stride * k)
  {
  }

  lemma ElementLaid(c: Const, k: nat)
    requires c.Array? && Laid(c) && k < |c.elts|
    ensures c.stride > 0 && Laid(c.elts[k]) && AllocSize(c.elts[k]) == c.stride && c.elts[k] < c
  {
  }

  lemma ElementStretch(little: bool, c: Const, k: nat, offset: nat, done: nat, step: nat)
    requires c.Array? && Laid(c) && k < |c.elts| && offset + done >= c.stride * k
             && offset + done + step <= c.stride * (k + 1)
    ensures SameStretch(little, c, offset, done, c.elts[k], offset + done - c.stride * k, step)
  {
    var elt, at: nat := c.elts[k], offset + done - c.stride * k;
    forall e: nat | e < step
      ensures SameSlice(little, c, offset, done, elt, at, e)
    {
      ElementSlice(little, c, k, offset, done, e);
    }
  }

  lemma RestIsZero(little: bool, c: Const, offset: nat, b: seq<nat>, cur: nat, done: nat, left: nat)
    requires done <= left && offset + done >= AllocSize(c) && HasSlice(little, c, offset, b, cur, done)
             && AllZero(b, cur + done, cur + left)
    ensures HasSlice(little, c, offset, b, cur, left)
  {
    forall i | done <= i < left
      ensures Slice(little, c, offset, i) == Some(b[cur + i])
    {
      BeyondEnd(little, c, offset, i);
    }
  }

  method ReadArray(little: bool, c: Const, offset: nat, buf: array<nat>, cur: nat, left: nat) returns (ok: bool)
    requires c.Array? && Laid(c) && offset <= AllocSize(c) && AllZero(buf[..], cur, cur + left)
    modifies buf
    ensures forall i :: 0 <= i < buf.Length && !(cur <= i < cur + left) ==> buf[i] == old(buf[i])
    ensures ok ==> HasSlice(little, c, offset, buf[..], cur, left) && SliceKnown(little, c, offset, left)
    ensures !ok && left > 0 ==> !SliceKnown(little, c, offset, left)
    decreases c, 0
  {
    hide Laid, Slice, HasSlice, SliceKnown;
    ArrayStride(c);
    var eltSize := c.stride;
    var index := offset / eltSize;
    ArrayStart(c, offset);
    var at: nat := offset - index * eltSize;
    var ptr: nat, rest: nat := cur, left;
    ghost var done: nat := 0;
    NothingRead(little, c, offset, buf[..], cur);
    while index != |c.elts|
      invariant 0 <= index <= |c.elts| && ptr == cur + done && done + rest == left
      invariant at < eltSize && eltSize * index + at == offset + done
      invariant forall i :: 0 <= i < buf.Length && !(cur <= i < cur + left) ==> buf[i] == old(buf[i])
      invariant HasSlice(little, c, offset, buf[..], cur, done) && AllZero(buf[..], ptr, ptr + rest)
                && (left > 0 ==> rest > 0)
      decreases |c.elts| - index
    {
      ElementLaid(c, index);
      NextElement(eltSize, index);
      ghost var step: nat := if eltSize - at < rest then eltSize - at else rest;
      ghost var was := buf[..];
      ElementStretch(little, c, index, offset, done, step);
      var read := ReadDataFromGlobal(little, c.elts[index], at, buf, ptr, rest);
      if !read {
        if left > 0 { StretchUnknown(little, c, offset, done, c.elts[index], at, step, rest); }
        return false;
      }
      KeptSlice(little, c, offset, was, buf[..], cur, done);
      StretchRead(little, c, offset, c.elts[index], at, buf[..], cur, done, step, rest);
      var bytesWritten := eltSize - at;
      if bytesWritten >= rest {
        AllRead(little, c, offset, buf[..], cur, left);
        return true;
      }
      at := 0;
      rest := rest - bytesWritten;
      ptr := ptr + bytesWritten;
      done := done + bytesWritten;
      index := index + 1;
    }
    EndOfArray(c, offset, done, at);
    RestIsZero(little, c, offset, buf[..], cur, done, left);
    AllRead(little, c, offset, buf[..], cur, left);
    ok := true;
  }

  lemma EndOfArray(c: Const, offset: nat, done: nat, at: nat)
    requires c.Array? && Laid(c) && c.stride * |c.elts| + at == offset + done
    ensures offset + done >= AllocSize(c)
  {
  }

  lemma ArrayStride(c: Const)
    requires c.Array? && Laid(c)
    ensures c.stride > 0 && AllocSize(c) == c.stride * |c.elts|
  {
  }

  lemma NextElement(s: nat, k: nat)
    ensures s * (k + 1) == s * k + s
  {
  }

  lemma ArrayStart(c: Const, offset: nat)
    requires c.Array? && Laid(c) && offset <= AllocSize(c)
    ensures c.stride > 0 && 0 <= offset / c.stride <= |c.elts|
    ensures 0 <= offset - offset / c.stride * c.stride < c.stride
    ensures c.stride * (offset / c.stride) + (offset - offset / c.stride * c.stride) == offset
  {
    DivMod(offset, c.stride);
    DivAtLeast(offset, c.stride, 0);
    NextElement(c.stride, |c.elts|);
    DivBelow(offset, c.stride, |c.elts| + 1);
  }

  // ---------------------------------------------------------------- FoldReinterpretLoadFromConstPtr

  datatype Load = Value(v: nat) | Undefined | NotFolded

  function Reverse(ds: seq<nat>): (r: seq<nat>)
    ensures |r| == |ds| && forall i :: 0 <= i < |ds| ==> r[i] == ds[|ds| - 1 - i]
  {
    if ds == [] then [] else Reverse(ds[1..]) + [ds[0]]
  }

  lemma ReverseNext(ds: seq<nat>, i: nat)
    requires i < |ds|
    ensures Reverse(ds[..i + 1]) == [ds[i]] + Reverse(ds[..i])
  {
  }

  /** The lowest digit comes first. */
  function Ordered(little: bool, ds: seq<nat>): (r: seq<nat>)
    ensures |r| == |ds| && forall i :: 0 <= i < |ds| ==> r[Place(little, |ds|, i)] == ds[i]
  {
    if little then ds else Reverse(ds)
  }

  /** The bytes at the offset, in the order they lie in memory. */
  function Bytes(little: bool, c: Const, offset: nat, n: nat): (ds: seq<nat>)
    requires SliceKnown(little, c, offset, n)
    ensures |ds| == n && forall i :: 0 <= i < n ==> Slice(little, c, offset, i) == Some(ds[i])
  {
    seq(n, i requires 0 <= i < n => Slice(little, c, offset, i).value)
  }

  lemma {:induction false} AndOfApart(x: nat, y: nat, k: nat)
    requires y < Pow2(k)
    ensures BitAnd(x * Pow2(k), y) == 0
    decreases k
  {
    if k > 0 {
      var p := Pow2(k - 1);
      assert x * Pow2(k) == 2 * (x * p);
      AndOfApart(x, y / 2, k - 1);
    } else {
      AndZero(x * Pow2(k));
    }
  }

  /** Or puts a number into free low bits. */
  lemma OrOfApart(x: nat, y: nat, k: nat)
    requires y < Pow2(k)
    ensures x * Pow2(k) >= 0 && BitOr(x * Pow2(k), y) == x * Pow2(k) + y
  {
    AndOfApart(x, y, k);
    OrAdds(x * Pow2(k), y);
  }

  /** One step of the assembly of the value, in an integer of so many bits. */
  method Append(r: nat, byte: nat, bits: nat, ghost whole: nat) returns (s: nat)
    requires bits >= 8 && byte < 256 && r == whole % Pow2(bits)
    ensures s == (byte + 256 * whole) % Pow2(bits)
  {
    s := r * 256 % Pow2(bits);
    ShiftedIs(r, bits);
    Pow2Adds(bits - 8, 8);
    assert Pow2(8) == 256;
    OrOfApart(r % Pow2(bits - 8), byte, 8);
    s := BitOr(s, byte);
    AppendedIs(r, byte, bits, whole);
  }

  lemma ShiftedIs(r: nat, bits: nat)
    requires bits >= 8
    ensures r * 256 % Pow2(bits) == r % Pow2(bits - 8) * 256
  {
    Pow2Adds(bits - 8, 8);
    assert Pow2(8) == 256;
    var p := Pow2(bits - 8);
    DivMod(r, p);
    var q, t := r / p, r % p;
    Dist(q * p, t, 256);
    Swap(q, p, 256);
    assert q * p * 256 == q * (p * 256);
    MulMono(t, p - 1, 256);
    DivIs(r * 256, p * 256, q, t * 256);
  }

  lemma AppendedIs(r: nat, byte: nat, bits: nat, whole: nat)
    requires bits >= 8 && byte < 256 && r == whole % Pow2(bits)
    ensures r % Pow2(bits - 8) * 256 + byte == (byte + 256 * whole) % Pow2(bits)
  {
    hide Pow2, Cong;
    Pow2Adds(bits - 8, 8);
    PowEight();
    var p, m := Pow2(bits - 8), Pow2(bits);
    ShiftedIs(r, bits);
    AppendedCong(r, byte, m, whole);
    var x := r % p * 256 + byte;
    MulMono(r % p, p - 1, 256);
    Dist(p, -1, 256);
    CongClose(m, x, (byte + 256 * whole) % m);
  }

  lemma AppendedCong(r: nat, byte: nat, m: nat, whole: nat)
    requires m > 0 && r == whole % m
    ensures Cong(m, r * 256 % m + byte, (byte + 256 * whole) % m) && 0 <= (byte + 256 * whole) % m < m
  {
    hide Cong;
    CongMod(m, whole);
    CongMul(m, r, whole, 256);
    CongMod(m, r * 256);
    CongTrans(m, r * 256 % m, r * 256, whole * 256);
    CongSame(m, byte);
    CongAdd(m, r * 256 % m, whole * 256, byte, byte);
    CongMod(m, byte + 256 * whole);
    CongTrans(m, r * 256 % m + byte, byte + 256 * whole, (byte + 256 * whole) % m);
  }

  lemma PowEight()
    ensures Pow2(8) == 256
  {
  }

  /** On a little-endian machine the last byte is the highest. */
  method AssembleLittle(raw: seq<nat>, bits: nat) returns (v: nat)
    requires raw != [] && AllBelow(raw, 256) && |raw| == (bits + 7) / 8
    ensures v == FromDigits(raw, 256) % Pow2(bits)
  {
    var n := |raw|;
    v := raw[n - 1] % Pow2(bits);
    assert raw[n - 1..] == [raw[n - 1]] && FromDigits(raw[n..], 256) == 0;
    var i := 1;
    while i != n
      invariant 1 <= i <= n && v == FromDigits(raw[n - i..], 256) % Pow2(bits)
    {
      assert raw[n - 1 - i..][1..] == raw[n - i..];
      v := Append(v, raw[n - 1 - i], bits, FromDigits(raw[n - i..], 256));
      i := i + 1;
    }
    assert raw[0..] == raw;
  }

  /** On a big-endian machine the first byte is the highest. */
  method AssembleBig(raw: seq<nat>, bits: nat) returns (v: nat)
    requires raw != [] && AllBelow(raw, 256) && |raw| == (bits + 7) / 8
    ensures v == FromDigits(Reverse(raw), 256) % Pow2(bits)
  {
    var n := |raw|;
    v := raw[0] % Pow2(bits);
    ReverseNext(raw, 0);
    var i := 1;
    while i != n
      invariant 1 <= i <= n && v == FromDigits(Reverse(raw[..i]), 256) % Pow2(bits)
    {
      ReverseNext(raw, i);
      v := Append(v, raw[i], bits, FromDigits(Reverse(raw[..i]), 256));
      i := i + 1;
    }
    assert raw[..n] == raw;
  }

  lemma {:induction false} BytesBelow(little: bool, c: Const, i: nat)
    ensures Byte(little, c, i).Some? ==> Byte(little, c, i).value < 256
    decreases c, if c.Struct? then |c.fields| + 1 else 0
  {
    match c {
      case Zero(_) =>
      case Int(_, _) =>
      case Struct(_, fields) => FieldBytesBelow(little, c, |fields|, i);
      case Array(s, elts) =>
        if s > 0 && i / s < |elts| { BytesBelow(little, elts[i / s], i % s); }
      case IntToPtr(d) => BytesBelow(little, d, i);
      case Unknown(_) =>
    }
  }

  lemma {:induction false} FieldBytesBelow(little: bool, c: Const, k: nat, i: nat)
    requires c.Struct? && k <= |c.fields|
    ensures FieldByte(little, c, k, i).Some? ==> FieldByte(little, c, k, i).value < 256
    decreases c, k
  {
    if k > 0 {
      var f := c.fields[k - 1];
      if f.0 <= i {
        if i - f.0 < AllocSize(f.1) { BytesBelow(little, f.1, i - f.0); }
      } else {
        FieldBytesBelow(little, c, k - 1, i);
      }
    }
  }

  lemma SliceBelow(little: bool, c: Const, offset: nat, b: seq<nat>, n: nat)
    requires HasSlice(little, c, offset, b, 0, n)
    ensures AllBelow(b[..n], 256)
  {
    forall i | 0 <= i < n
      ensures b[..n][i] < 256
    {
      if offset + i < AllocSize(c) { BytesBelow(little, c, offset + i); }
      assert Slice(little, c, offset, i) == Some(b[0 + i]);
    }
  }

  lemma BytesRead(little: bool, c: Const, offset: nat, b: seq<nat>, n: nat)
    requires HasSlice(little, c, offset, b, 0, n) && SliceKnown(little, c, offset, n)
    ensures b[..n] == Bytes(little, c, offset, n)
  {
    hide Slice;
    forall i | 0 <= i < n
      ensures b[..n][i] == Bytes(little, c, offset, n)[i]
    {
      assert Slice(little, c, offset, i) == Some(b[0 + i]);
    }
  }

  /** A load of an integer from a constant.  Up to 256 bits it is folded exactly if it starts within the
      constant and all its bytes are known; the value is that of the bytes read as a number of the
      machine's byte order, cut to the bits of the integer. */
  method FoldReinterpretLoad(little: bool, c: Const, offset: int, bits: nat) returns (r: Load)
    requires Laid(c)
    ensures bits == 0 || bits > 256 || offset < 0 ==> r == NotFolded
    ensures 0 < bits <= 256 && offset >= AllocSize(c) ==> r == Undefined
    ensures 0 < bits <= 256 && 0 <= offset < AllocSize(c) ==>
              r == if SliceKnown(little, c, offset, (bits + 7) / 8)
                   then Value(FromDigits(Ordered(little, Bytes(little, c, offset, (bits + 7) / 8)), 256) % Pow2(bits))
                   else NotFolded
  {
    hide Laid, Slice, HasSlice, SliceKnown, FromDigits, Pow2;
    var bytesLoaded := (bits + 7) / 8;
    if bytesLoaded > 32 || bytesLoaded == 0 {
      return NotFolded;
    }
    if offset < 0 {
      return NotFolded;
    }
    if offset >= AllocSize(c) {
      return Undefined;
    }
    var rawBytes := new nat[32](_ => 0);
    var ok := ReadDataFromGlobal(little, c, offset, rawBytes, 0, bytesLoaded);
    if !ok {
      return NotFolded;
    }
    BytesRead(little, c, offset, rawBytes[..], bytesLoaded);
    SliceBelow(little, c, offset, rawBytes[..], bytesLoaded);
    var v: nat;
    if little {
      v := AssembleLittle(rawBytes[..bytesLoaded], bits);
    } else {
      v := AssembleBig(rawBytes[..bytesLoaded], bits);
    }
    return Value(v);
  }

  lemma IntegerSlice(little: bool, bytes: nat, v: nat, i: nat)
    requires i < bytes
    ensures Slice(little, Int(bytes, v), 0, i) == Some(Digit(v, 256, Place(little, bytes, i)))
  {
    hide Digit, Power;
  }

  lemma IntegerDigits(little: bool, bytes: nat, v: nat)
    requires SliceKnown(little, Int(bytes, v), 0, bytes)
    ensures Ordered(little, Bytes(little, Int(bytes, v), 0, bytes)) == DigitsOf(v, 256, bytes)
  {
    hide Slice, SliceKnown, Digit, Power, Bytes, Ordered, DigitsOf;
    var ds := Bytes(little, Int(bytes, v), 0, bytes);
    forall i | 0 <= i < bytes
      ensures Ordered(little, ds)[i] == DigitsOf(v, 256, bytes)[i]
    {
      var k := Place(little, bytes, i);
      assert Ordered(little, ds)[Place(little, bytes, k)] == ds[k];
      IntegerSlice(little, bytes, v, k);
    }
  }

  /** Loading an integer back as the type it has gives its value, on either kind of machine. */
  lemma LoadOfInteger(little: bool, bytes: nat, v: nat)
    requires IntOk(bytes, v)
    ensures SliceKnown(little, Int(bytes, v), 0, bytes)
    ensures FromDigits(Ordered(little, Bytes(little, Int(bytes, v), 0, bytes)), 256) % Pow2(8 * bytes) == v
  {
    hide Digit, Power, Pow2, FromDigits, DigitsOf, Ordered, Bytes, Slice;
    forall i | 0 <= i < bytes
      ensures Slice(little, Int(bytes, v), 0, i).Some?
    {
      IntegerSlice(little, bytes, v, i);
    }
    IntegerDigits(little, bytes, v);
    FromDigitsOf(v, 256, bytes);
    ByteShift(bytes);
  }
}
