/** concat_and_insert of src/stream.cpp: slicing a frame with a header gap before every slice. */
module Packetizer {
  import opened Bytes

  function CeilDiv(a: nat, b: nat): (q: nat)
    requires b > 0
  {
    a / b + if a % b != 0 then 1 else 0
  }

  /** What the packetiser means: every slice of at most `sl` bytes is preceded by `ins` zero bytes. */
  function Interleave(ins: nat, sl: nat, data: seq<Byte>): seq<Byte>
    requires sl > 0
  {
    if data == [] then []
    else if |data| <= sl then Zeros(ins) + data
    else Zeros(ins) + data[..sl] + Interleave(ins, sl, data[sl..])
  }

  lemma {:induction false} InterleaveLength(ins: nat, sl: nat, data: seq<Byte>)
    requires sl > 0
    ensures |Interleave(ins, sl, data)| == CeilDiv(|data|, sl) * ins + |data|
  {
    if |data| > sl {
      InterleaveLength(ins, sl, data[sl..]);
      CeilDivStep(|data|, sl);
      NextMultiple(CeilDiv(|data| - sl, sl), ins);
    } else if data != [] {
      CeilDivSmall(|data|, sl);
    }
  }

  lemma CeilDivStep(a: nat, b: nat)
    requires b > 0 && a >= b
    ensures CeilDiv(a, b) == CeilDiv(a - b, b) + 1
  {
    DivModUnique(a, b, (a - b) / b + 1, (a - b) % b);
  }

  lemma CeilDivSmall(a: nat, b: nat)
    requires 0 < a <= b
    ensures CeilDiv(a, b) == 1
  {
    if a == b { DivModUnique(a, b, 1, 0); } else { DivModUnique(a, b, 0, a); }
  }

  /** `n` whole groups and a rest of 1 to `b` units are `n + 1` groups, and conversely. */
  lemma CeilDivIs(a: nat, b: nat, n: nat, r: nat)
    requires b > 0 && a == n * b + r && 0 < r <= b
    ensures CeilDiv(a, b) == n + 1
  {
    if r == b { DivModUnique(a, b, n + 1, 0); } else { DivModUnique(a, b, n, r); }
  }

  /** The number of the last group, and how many units it holds. */
  lemma CeilDivParts(a: nat, b: nat) returns (n: nat, r: nat)
    requires b > 0 && a > 0
    ensures a == n * b + r && 0 < r <= b && CeilDiv(a, b) == n + 1
  {
    n, r := a / b, a % b;
    if r == 0 {
      n, r := n - 1, b;
    }
    CeilDivIs(a, b, n, r);
  }

  lemma WholeSlice(ins: nat, sl: nat, data: seq<Byte>)
    requires 0 < sl <= |data|
    ensures Interleave(ins, sl, data) == Zeros(ins) + data[..sl] + Interleave(ins, sl, data[sl..])
  {
    if |data| == sl { assert data[..sl] == data && data[sl..] == []; }
  }

  lemma Regroup(head: seq<Byte>, a: seq<Byte>, b: seq<Byte>, c: seq<Byte>)
    ensures head + (a + b + c) == head + a + b + c
  {
  }

  /** A slice appended after whole slices adds one gap and the slice. */
  lemma {:induction false} InterleaveSnoc(ins: nat, sl: nat, data: seq<Byte>, k: nat, chunk: seq<Byte>)
    requires sl > 0 && |data| == k * sl && 0 < |chunk| <= sl
    ensures Interleave(ins, sl, data + chunk) == Interleave(ins, sl, data) + Zeros(ins) + chunk
    decreases k
  {
    if k == 0 {
      assert data + chunk == chunk && data == [];
      OneSlice(ins, sl, chunk);
    } else {
      NextMultiple(k - 1, sl);
      assert (k - 1) * sl >= 0;
      var whole, rest := data + chunk, data[sl..];
      InterleaveSnoc(ins, sl, rest, k - 1, chunk);
      assert whole[sl..] == rest + chunk && whole[..sl] == data[..sl];
      WholeSlice(ins, sl, whole);
      WholeSlice(ins, sl, data);
      Regroup(Zeros(ins) + data[..sl], Interleave(ins, sl, rest), Zeros(ins), chunk);
    }
  }

  lemma OneSlice(ins: nat, sl: nat, chunk: seq<Byte>)
    requires 0 < |chunk| <= sl
    ensures Interleave(ins, sl, chunk) == Interleave(ins, sl, []) + Zeros(ins) + chunk
  {
  }

  /** One iteration on the whole buffer: storing the next slice after its gap extends the prefix done. */
  lemma StoreSlice(ins: nat, sl: nat, data: seq<Byte>, total: nat, x: nat, done: nat, gap: nat, slice: nat,
                   image: seq<Byte>, at: nat)
    requires sl > 0 && 0 < slice <= sl && done == x * sl && gap == x * ins
    requires done + slice <= |data| && done + gap + ins + slice <= total
    requires image == Interleave(ins, sl, data[..done]) + Zeros(total - done - gap)
    requires at == done + gap + ins
    ensures |image| == total
    ensures Patch(image, at, data[done..done + slice])
         == Interleave(ins, sl, data[..done + slice]) + Zeros(total - done - slice - gap - ins)
  {
    var chunk := data[done..done + slice];
    InterleaveLength(ins, sl, data[..done]);
    CeilDivWhole(x, sl);
    InterleaveSnoc(ins, sl, data[..done], x, chunk);
    assert data[..done + slice] == data[..done] + chunk;
  }

  lemma PatchTwice(s: seq<Byte>, off: nat, a: seq<Byte>, b: seq<Byte>)
    requires off + |a| + |b| <= |s|
    ensures Patch(Patch(s, off, a), off + |a|, b) == Patch(s, off, a + b)
  {
  }

  /** A slice across the two buffers, stored in two parts. */
  lemma StoreAcross(s: seq<Byte>, at: nat, d1: seq<Byte>, d2: seq<Byte>, next: nat, n: nat)
    requires next <= |d1| < next + n <= |d1| + |d2| && at + n <= |s|
    ensures var first := |d1| - next;
      Patch(Patch(s, at, d1[next..]), at + first, d2[..n - first]) == Patch(s, at, (d1 + d2)[next..next + n])
  {
    assert (d1 + d2)[next..next + n] == d1[next..] + d2[..n - (|d1| - next)];
    PatchTwice(s, at, d1[next..], d2[..n - (|d1| - next)]);
  }

  lemma SliceWithin(d1: seq<Byte>, d2: seq<Byte>, second: bool, source: seq<Byte>, next: nat, n: nat, from: nat)
    requires source == (if second then d2 else d1) && next + n <= |source|
    requires from == next + (if second then |d1| else 0)
    ensures (d1 + d2)[from..from + n] == source[next..next + n]
  {
  }

  /** The copy of one slice, which may run from the first buffer into the second. */
  method CopySlice(result: array<Byte>, at: nat, data1: seq<Byte>, data2: seq<Byte>, inSecond: bool, next: nat,
                   slice: nat, ghost done: nat)
    returns (inSecond': bool, next': nat)
    requires at + slice <= result.Length
    requires next <= if inSecond then |data2| else |data1|
    requires done == next + (if inSecond then |data1| else 0) && done + slice <= |data1 + data2|
    modifies result
    ensures next' <= if inSecond' then |data2| else |data1|
    ensures next' + (if inSecond' then |data1| else 0) == done + slice
    ensures result[..] == Patch(old(result[..]), at, (data1 + data2)[done..done + slice])
  {
    inSecond', next' := inSecond, next + slice;
    var source := if inSecond then data2 else data1;
    if next + slice > |source| {
      var copyLen := |source| - next;
      CopyAcross(result, at, data1, data2, next, slice, copyLen);
      inSecond', next' := true, slice - copyLen;
    } else {
      SliceWithin(data1, data2, inSecond, source, next, slice, done);
      Store(result, at, source[next..next + slice]);
    }
  }

  method CopyAcross(result: array<Byte>, at: nat, data1: seq<Byte>, data2: seq<Byte>, next: nat, slice: nat,
                    copyLen: nat)
    requires at + slice <= result.Length && next <= |data1| < next + slice <= |data1| + |data2|
        && copyLen == |data1| - next
    modifies result
    ensures result[..] == Patch(old(result[..]), at, (data1 + data2)[next..next + slice])
  {
    StoreAcross(result[..], at, data1, data2, next, slice);
    Store(result, at, data1[next..]);
    Store(result, at + copyLen, data2[..slice - copyLen]);
  }

  /** After `x` slices of `size` bytes `done` bytes are copied and `gap` bytes left for headers. */
  ghost predicate Counted(size: nat, ins: nat, sl: nat, x: nat, done: nat, gap: nat)
    requires sl > 0
  {
    var n := CeilDiv(size, sl);
    && x <= n && gap == x * ins && gap <= n * ins && done <= size
    && (x < n ==> done == x * sl < size) && (x == n ==> done == size)
  }

  lemma CountedStep(size: nat, ins: nat, sl: nat, x: nat, done: nat, gap: nat, slice: int)
    requires sl > 0 && Counted(size, ins, sl, x, done, gap) && x < CeilDiv(size, sl)
    requires slice == if x == CeilDiv(size, sl) - 1 then size - x * sl else sl
    ensures 0 < slice <= sl && x * (ins + sl) == done + gap
    ensures Counted(size, ins, sl, x + 1, done + slice, gap + ins)
  {
    Distribute(x, ins, sl);
    SliceBounds(size, sl, x, slice);
    GapBounds(ins, x, CeilDiv(size, sl));
  }

  /** Where the loop is in the two buffers. */
  ghost predicate Cursor(data1: seq<Byte>, data2: seq<Byte>, ins: nat, sl: nat, x: nat, inSecond: bool, next: nat,
                         done: nat, gap: nat)
    requires sl > 0
  {
    && Counted(|data1| + |data2|, ins, sl, x, done, gap)
    && done == next + (if inSecond then |data1| else 0) && next <= (if inSecond then |data2| else |data1|)
  }

  ghost predicate Image(image: seq<Byte>, data: seq<Byte>, ins: nat, sl: nat, done: nat, gap: nat, total: nat)
    requires sl > 0
  {
    && |image| == total && done <= |data| && done + gap <= total
    && image == Interleave(ins, sl, data[..done]) + Zeros(total - done - gap)
  }

  lemma ImageStep(image: seq<Byte>, image': seq<Byte>, data: seq<Byte>, ins: nat, sl: nat, x: nat, done: nat, gap: nat,
                  slice: nat, total: nat, at: nat)
    requires sl > 0 && Image(image, data, ins, sl, done, gap, total) && 0 < slice <= sl && done == x * sl
        && gap == x * ins
    requires done + slice <= |data| && at == done + gap + ins && at + slice <= total
    requires image' == Patch(image, at, data[done..done + slice])
    ensures Image(image', data, ins, sl, done + slice, gap + ins, total)
  {
    StoreSlice(ins, sl, data, total, x, done, gap, slice, image, at);
  }

  lemma StartOfImage(image: seq<Byte>, data1: seq<Byte>, data2: seq<Byte>, ins: nat, sl: nat)
    requires sl > 0 && image == Zeros(|image|)
    ensures Cursor(data1, data2, ins, sl, 0, false, 0, 0, 0) && Image(image, data1 + data2, ins, sl, 0, 0, |image|)
  {
    CeilDivZero(|data1| + |data2|, sl);
    assert [] + image == image;
  }

  lemma EndOfImage(image: seq<Byte>, data: seq<Byte>, ins: nat, sl: nat, gap: nat, total: nat)
    requires sl > 0 && Image(image, data, ins, sl, |data|, gap, total) && total == |data| + gap
    ensures image == Interleave(ins, sl, data)
  {
    assert data[..|data|] == data;
  }

  method ConcatAndInsert(insertSize: nat, sliceSize: nat, data1: seq<Byte>, data2: seq<Byte>)
    returns (result: array<Byte>)
    requires sliceSize > 0
    ensures fresh(result)
    ensures result[..] == Interleave(insertSize, sliceSize, data1 + data2)
  {
    var dataSize := |data1| + |data2|;
    var elements := CeilDiv(dataSize, sliceSize);
    result := new Byte[elements * insertSize + dataSize](_ => 0);

    ghost var done: nat, gap: nat := 0, 0;
    var inSecond, next: nat := false, 0;
    assert result[..] == Zeros(result.Length);
    StartOfImage(result[..], data1, data2, insertSize, sliceSize);
    for x := 0 to elements
      invariant Cursor(data1, data2, insertSize, sliceSize, x, inSecond, next, done, gap)
      invariant Image(result[..], data1 + data2, insertSize, sliceSize, done, gap, result.Length)
    {
      inSecond, next, done, gap := CopyElement(result, insertSize, sliceSize, data1, data2, x, elements, inSecond, next,
                                               done, gap);
    }
    EndOfImage(result[..], data1 + data2, insertSize, sliceSize, gap, result.Length);
  }

  /** One iteration: the slice `x` goes behind its gap. */
  method CopyElement(result: array<Byte>, insertSize: nat, sliceSize: nat, data1: seq<Byte>, data2: seq<Byte>, x: nat,
                     elements: nat, inSecond: bool, next: nat, ghost done: nat, ghost gap: nat)
    returns (inSecond': bool, next': nat, ghost done': nat, ghost gap': nat)
    requires sliceSize > 0 && x < elements == CeilDiv(|data1| + |data2|, sliceSize)
    requires result.Length == elements * insertSize + |data1| + |data2|
    requires Cursor(data1, data2, insertSize, sliceSize, x, inSecond, next, done, gap)
    requires Image(result[..], data1 + data2, insertSize, sliceSize, done, gap, result.Length)
    modifies result
    ensures Cursor(data1, data2, insertSize, sliceSize, x + 1, inSecond', next', done', gap')
    ensures Image(result[..], data1 + data2, insertSize, sliceSize, done', gap', result.Length)
  {
    var dataSize := |data1| + |data2|;
    var p := x * (insertSize + sliceSize);

    var slice := if x == elements - 1 then dataSize - x * sliceSize else sliceSize;
    CountedStep(dataSize, insertSize, sliceSize, x, done, gap, slice);
    inSecond', next' := PlaceSlice(result, p + insertSize, data1, data2, inSecond, next, slice, insertSize, sliceSize,
                                   x, done, gap);
    done', gap' := done + slice, gap + insertSize;
  }

  method PlaceSlice(result: array<Byte>, at: nat, data1: seq<Byte>, data2: seq<Byte>, inSecond: bool, next: nat,
                    slice: nat, ghost ins: nat, ghost sl: nat, ghost x: nat, ghost done: nat, ghost gap: nat)
    returns (inSecond': bool, next': nat)
    requires sl > 0 && Image(result[..], data1 + data2, ins, sl, done, gap, result.Length)
    requires 0 < slice <= sl && done == x * sl && gap == x * ins && at == done + gap + ins
        && at + slice <= result.Length
    requires next <= (if inSecond then |data2| else |data1|)
    requires done == next + (if inSecond then |data1| else 0) && done + slice <= |data1 + data2|
    modifies result
    ensures next' <= if inSecond' then |data2| else |data1|
    ensures next' + (if inSecond' then |data1| else 0) == done + slice
    ensures Image(result[..], data1 + data2, ins, sl, done + slice, gap + ins, result.Length)
  {
    ghost var before := result[..];
    inSecond', next' := CopySlice(result, at, data1, data2, inSecond, next, slice, done);
    ImageStep(before, result[..], data1 + data2, ins, sl, x, done, gap, slice, result.Length, at);
  }

  lemma CeilDivZero(a: nat, b: nat)
    requires b > 0
    ensures CeilDiv(a, b) == 0 <==> a == 0
  {
    if a > 0 { var n, r := CeilDivParts(a, b); } else { CeilDivWhole(0, b); }
  }

  lemma CeilDivWhole(k: nat, b: nat)
    requires b > 0
    ensures CeilDiv(k * b, b) == k
  {
    DivModUnique(k * b, b, k, 0);
  }

  lemma GapBounds(ins: nat, x: nat, elements: nat)
    requires x < elements
    ensures (x + 1) * ins == x * ins + ins <= elements * ins
  {
    if x + 1 < elements { StrideStep(ins, x + 1, elements); }
  }

  lemma SliceBounds(size: nat, sl: nat, x: nat, slice: int)
    requires sl > 0 && x < CeilDiv(size, sl) && x * sl < size
    requires slice == if x == CeilDiv(size, sl) - 1 then size - x * sl else sl
    ensures 0 < slice <= sl
    ensures x < CeilDiv(size, sl) - 1 ==> (x + 1) * sl == x * sl + sl < size
    ensures x == CeilDiv(size, sl) - 1 ==> x * sl + slice == size
  {
    var n, r := CeilDivParts(size, sl);
    if x < n {
      StrideStep(sl, x, n);
    }
  }
}
