/** omp_target_memcpy_rect: copying a rectangular volume between arrays of any rank. */
module MemcpyRect {
  import opened Memory
  import opened Device

  /** The arguments that describe the volume; all sequences have one element per dimension. */
  datatype Plan = Plan(element: nat, volume: seq<nat>, dstOffsets: seq<nat>, srcOffsets: seq<nat>,
                       dstDims: seq<nat>, srcDims: seq<nat>) {
    /** num_dims >= 1 and element_size >= 1 are tested by the source; sizes of the arrays are not. */
    predicate Valid() {
      && element >= 1 && |volume| >= 1
      && |dstOffsets| == |srcOffsets| == |dstDims| == |srcDims| == |volume|
    }

    predicate Positive() {
      forall i :: 0 <= i < |volume| ==> volume[i] >= 1
    }

    /** Section 3.5.5 of OpenMP 4.5: the volume lies inside the destination array. */
    predicate InsideDst()
      requires Valid()
    {
      forall i :: 0 <= i < |volume| ==> dstOffsets[i] + volume[i] <= dstDims[i]
    }

    function Inner(): Plan
      requires Valid()
    {
      Plan(element, volume[1..], dstOffsets[1..], srcOffsets[1..], dstDims[1..], srcDims[1..])
    }

    /** The same volume with only the first n slices. */
    function First(n: nat): Plan
      requires Valid()
    {
      this.(volume := volume[0 := n])
    }
  }

  /** Bytes between neighbours in the first dimension. */
  function Slice(element: nat, dims: seq<nat>): nat {
    if |dims| <= 1 then element else Times(dims[1], Slice(element, dims[1..]))
  }

  function Times(a: nat, b: nat): (p: nat)
    ensures p == a * b
  {
    TimesNonNegative(a, b);
    a * b
  }

  lemma TimesNonNegative(a: nat, b: nat)
    ensures a * b >= 0
  {
  }

  predicate InVolume(v: seq<nat>, volume: seq<nat>) {
    |v| == |volume| && forall i :: 0 <= i < |v| ==> v[i] < volume[i]
  }

  /** Byte offset of the element with index vector offsets + v. */
  function Offset(element: nat, dims: seq<nat>, offsets: seq<nat>, v: seq<nat>): nat
    requires |dims| == |offsets| == |v|
  {
    if |v| == 0 then 0
    else Times(offsets[0] + v[0], Slice(element, dims)) + Offset(element, dims[1..], offsets[1..], v[1..])
  }

  // ------------------------------------------------------- row-major order

  /** Row-major element number by Horner's rule, acc being the number formed so far. */
  function RowMajor(acc: nat, dims: seq<nat>, idx: seq<nat>): nat
    requires |dims| == |idx|
    decreases |idx|
  {
    if |idx| == 0 then acc else RowMajor(Times(acc, dims[0]) + idx[0], dims[1..], idx[1..])
  }

  function Sum(a: seq<nat>, b: seq<nat>): (r: seq<nat>)
    requires |a| == |b|
    ensures |r| == |a| && forall i :: 0 <= i < |a| ==> r[i] == a[i] + b[i]
  {
    if |a| == 0 then [] else [a[0] + b[0]] + Sum(a[1..], b[1..])
  }

  lemma Distribute(acc: nat, d: nat, i: nat, s: nat)
    ensures (acc * d + i) * s == acc * (d * s) + i * s
  {
  }

  lemma {:induction false} HornerIsOffset(element: nat, acc: nat, dims: seq<nat>, offsets: seq<nat>, v: seq<nat>)
    requires |dims| == |offsets| == |v| && |v| >= 1
    ensures RowMajor(acc, dims, Sum(offsets, v)) * element
         == acc * (dims[0] * Slice(element, dims)) + Offset(element, dims, offsets, v)
    decreases |v|
  {
    var s := Slice(element, dims);
    Distribute(acc, dims[0], offsets[0] + v[0], s);
    if |v| > 1 {
      HornerIsOffset(element, acc * dims[0] + (offsets[0] + v[0]), dims[1..], offsets[1..], v[1..]);
    }
  }

  /** The source's slice arithmetic addresses the element with row-major number offsets + v. */
  lemma OffsetIsRowMajor(element: nat, dims: seq<nat>, offsets: seq<nat>, v: seq<nat>)
    requires |dims| == |offsets| == |v| && |v| >= 1
    ensures Offset(element, dims, offsets, v) == RowMajor(0, dims, Sum(offsets, v)) * element
  {
    HornerIsOffset(element, 0, dims, offsets, v);
  }

  // ------------------------------------------------------------ the effect

  function DstByte(p: Plan, dp: int, v: seq<nat>, b: nat): int
    requires p.Valid() && |v| == |p.volume|
  {
    dp + Offset(p.element, p.dstDims, p.dstOffsets, v) + b
  }

  function SrcByte(p: Plan, sp: int, v: seq<nat>, b: nat): int
    requires p.Valid() && |v| == |p.volume|
  {
    sp + Offset(p.element, p.srcDims, p.srcOffsets, v) + b
  }

  ghost predicate Covers(p: Plan, dp: int, a: int)
    requires p.Valid()
  {
    exists v, b :: InVolume(v, p.volume) && 0 <= b < p.element && DstByte(p, dp, v, b) == a
  }

  /** m is m0 with exactly the elements of the volume replaced by those of src. */
  ghost predicate Copied(m0: Mem, m: Mem, p: Plan, dp: int, src: Mem, sp: int)
    requires p.Valid()
  {
    && (forall v, b: nat {:trigger DstByte(p, dp, v, b)} ::
          InVolume(v, p.volume) && b < p.element ==> m(DstByte(p, dp, v, b)) == src(SrcByte(p, sp, v, b)))
    && (forall a {:trigger Covers(p, dp, a)} :: m(a) == m0(a) || Covers(p, dp, a))
  }

  lemma IndexBelow(i: nat, d: nat, s: nat, x: nat)
    requires i < d && x < s
    ensures i * s + x < d * s
  {
    assert d * s == i * s + (d - i) * s;
    assert (d - i) * s >= s by { TimesNonNegative(d - i - 1, s); assert (d - i) * s == (d - i - 1) * s + s; }
  }

  /** The elements of one slice stay inside of it. */
  lemma {:induction false} InnerOffsetBelowSlice(p: Plan, v: seq<nat>, b: nat)
    requires p.Valid() && p.InsideDst() && InVolume(v, p.volume) && b < p.element
    ensures Offset(p.element, p.dstDims[1..], p.dstOffsets[1..], v[1..]) + b < Slice(p.element, p.dstDims)
    decreases |v|
  {
    if |v| > 1 {
      var q := p.Inner();
      assert q.Valid() && q.InsideDst() && InVolume(v[1..], q.volume);
      InnerOffsetBelowSlice(q, v[1..], b);
      IndexBelow(q.dstOffsets[0] + v[1], q.dstDims[0], Slice(q.element, q.dstDims),
                 Offset(q.element, q.dstDims[1..], q.dstOffsets[1..], v[1..][1..]) + b);
    }
  }

  /** Bytes of different slices are different. */
  lemma SlicesApart(p: Plan, dp: int, v: seq<nat>, b: nat, w: seq<nat>, c: nat)
    requires p.Valid() && p.InsideDst()
    requires InVolume(v, p.volume) && InVolume(w, p.volume) && b < p.element && c < p.element && v[0] < w[0]
    ensures DstByte(p, dp, v, b) < DstByte(p, dp, w, c)
  {
    InnerOffsetBelowSlice(p, v, b);
    IndexBelow(p.dstOffsets[0] + v[0], p.dstOffsets[0] + w[0], Slice(p.element, p.dstDims),
               Offset(p.element, p.dstDims[1..], p.dstOffsets[1..], v[1..]) + b);
  }

  // ------------------------------------------------------- slice by slice

  /** Where the recursive call for slice i starts. */
  function InnerDst(p: Plan, dp: int, i: nat): int
    requires p.Valid()
  {
    dp + Times(p.dstOffsets[0] + i, Slice(p.element, p.dstDims))
  }

  function InnerSrc(p: Plan, sp: int, i: nat): int
    requires p.Valid()
  {
    sp + Times(p.srcOffsets[0] + i, Slice(p.element, p.srcDims))
  }

  lemma InnerByte(p: Plan, dp: int, sp: int, i: nat, w: seq<nat>, b: nat)
    requires p.Valid() && |p.volume| >= 2 && |w| == |p.volume| - 1
    ensures DstByte(p, dp, [i] + w, b) == DstByte(p.Inner(), InnerDst(p, dp, i), w, b)
    ensures SrcByte(p, sp, [i] + w, b) == SrcByte(p.Inner(), InnerSrc(p, sp, i), w, b)
  {
    assert ([i] + w)[1..] == w;
  }

  lemma FirstByte(p: Plan, dp: int, sp: int, n: nat, v: seq<nat>, b: nat)
    requires p.Valid() && |v| == |p.volume|
    ensures p.First(n).Valid()
    ensures DstByte(p.First(n), dp, v, b) == DstByte(p, dp, v, b)
    ensures SrcByte(p.First(n), sp, v, b) == SrcByte(p, sp, v, b)
  {
  }

  lemma InnerCovers(p: Plan, dp: int, i: nat, a: int) returns (w: seq<nat>, c: nat)
    requires p.Valid() && |p.volume| >= 2 && Covers(p.Inner(), InnerDst(p, dp, i), a)
    ensures InVolume(w, p.Inner().volume) && c < p.element && DstByte(p, dp, [i] + w, c) == a
  {
    var w', c' :| InVolume(w', p.Inner().volume) && 0 <= c' < p.element
                  && DstByte(p.Inner(), InnerDst(p, dp, i), w', c') == a;
    w, c := w', c';
    InnerByte(p, dp, 0, i, w, c);
  }

  lemma SliceIsCopied(m0: Mem, m1: Mem, m2: Mem, p: Plan, dp: int, src: Mem, sp: int, i: nat, v: seq<nat>, b: nat)
    requires p.Valid() && p.InsideDst() && |p.volume| >= 2 && i < p.volume[0]
    requires Copied(m0, m1, p.First(i), dp, src, sp)
    requires Copied(m1, m2, p.Inner(), InnerDst(p, dp, i), src, InnerSrc(p, sp, i))
    requires InVolume(v, p.First(i + 1).volume) && b < p.element
    ensures m2(DstByte(p, dp, v, b)) == src(SrcByte(p, sp, v, b))
  {
    hide DstByte, SrcByte, InnerDst, InnerSrc;
    var w := v[1..];
    if v[0] == i {
      assert v == [i] + w && InVolume(w, p.Inner().volume);
      InnerByte(p, dp, sp, i, w, b);
    } else {
      assert InVolume(v, p.First(i).volume);
      FirstByte(p, dp, sp, i, v, b);
      var x := DstByte(p, dp, v, b);
      if Covers(p.Inner(), InnerDst(p, dp, i), x) {
        var u, c := InnerCovers(p, dp, i, x);
        SlicesApart(p, dp, v, b, [i] + u, c);
      }
    }
  }

  lemma SliceCoversMore(m0: Mem, m1: Mem, m2: Mem, p: Plan, dp: int, src: Mem, sp: int, i: nat, a: int)
    requires p.Valid() && |p.volume| >= 2 && i < p.volume[0]
    requires Copied(m0, m1, p.First(i), dp, src, sp)
    requires Copied(m1, m2, p.Inner(), InnerDst(p, dp, i), src, InnerSrc(p, sp, i))
    ensures m2(a) == m0(a) || Covers(p.First(i + 1), dp, a)
  {
    hide DstByte, SrcByte, InnerDst, InnerSrc;
    if Covers(p.Inner(), InnerDst(p, dp, i), a) {
      var w, c := InnerCovers(p, dp, i, a);
      assert InVolume([i] + w, p.First(i + 1).volume);
      FirstByte(p, dp, sp, i + 1, [i] + w, c);
    } else if Covers(p.First(i), dp, a) {
      var v, b :| InVolume(v, p.First(i).volume) && 0 <= b < p.element && DstByte(p.First(i), dp, v, b) == a;
      assert InVolume(v, p.First(i + 1).volume);
      FirstByte(p, dp, sp, i, v, b);
      FirstByte(p, dp, sp, i + 1, v, b);
    }
  }

  /** The slices copied so far and one more. */
  lemma AddSlice(m0: Mem, m1: Mem, m2: Mem, p: Plan, dp: int, src: Mem, sp: int, i: nat)
    requires p.Valid() && p.InsideDst() && |p.volume| >= 2 && i < p.volume[0]
    requires Copied(m0, m1, p.First(i), dp, src, sp)
    requires Copied(m1, m2, p.Inner(), InnerDst(p, dp, i), src, InnerSrc(p, sp, i))
    ensures Copied(m0, m2, p.First(i + 1), dp, src, sp)
  {
    hide DstByte, SrcByte, InnerDst, InnerSrc;
    var q := p.First(i + 1);
    forall v, b: nat | InVolume(v, q.volume) && b < q.element
      ensures m2(DstByte(q, dp, v, b)) == src(SrcByte(q, sp, v, b))
    {
      FirstByte(p, dp, sp, i + 1, v, b);
      SliceIsCopied(m0, m1, m2, p, dp, src, sp, i, v, b);
    }
    forall a
      ensures m2(a) == m0(a) || Covers(q, dp, a)
    {
      SliceCoversMore(m0, m1, m2, p, dp, src, sp, i, a);
    }
  }

  lemma NoSlices(m: Mem, p: Plan, dp: int, src: Mem, sp: int)
    requires p.Valid()
    ensures Copied(m, m, p.First(0), dp, src, sp)
  {
  }

  lemma TimesMonotone(a: nat, b: nat, s: nat)
    requires a <= b
    ensures a * s <= b * s
  {
  }

  lemma DivideIndex(x: nat, n: nat, s: nat) returns (i: nat, b: nat)
    requires s >= 1 && x < n * s
    ensures i < n && b < s && x == i * s + b
  {
    i, b := x / s, x % s;
    if i >= n {
      TimesMonotone(n, i, s);
    }
  }

  /** One dimension: a single block copy. */
  lemma RowIsCopied(m: Mem, p: Plan, dp: int, src: Mem, sp: int)
    requires p.Valid() && |p.volume| == 1
    ensures Copied(m, Copy(m, dp + p.element * p.dstOffsets[0], src, sp + p.element * p.srcOffsets[0],
                           Times(p.element, p.volume[0])), p, dp, src, sp)
  {
    var e, n := p.element, p.volume[0];
    var to, from := dp + e * p.dstOffsets[0], sp + e * p.srcOffsets[0];
    var m' := Copy(m, to, src, from, Times(e, n));
    forall v, b: nat | InVolume(v, p.volume) && b < e
      ensures m'(DstByte(p, dp, v, b)) == src(SrcByte(p, sp, v, b))
    {
      RowByte(p, dp, sp, v, b);
      IndexBelow(v[0], n, e, b);
    }
    forall a
      ensures m'(a) == m(a) || Covers(p, dp, a)
    {
      if to <= a < to + e * n {
        var i, b := DivideIndex(a - to, n, e);
        RowByte(p, dp, sp, [i], b);
        assert InVolume([i], p.volume);
      }
    }
  }

  lemma RowByte(p: Plan, dp: int, sp: int, v: seq<nat>, b: nat)
    requires p.Valid() && |p.volume| == 1 && |v| == 1
    ensures DstByte(p, dp, v, b) == dp + p.element * p.dstOffsets[0] + (v[0] * p.element + b)
    ensures SrcByte(p, sp, v, b) == sp + p.element * p.srcOffsets[0] + (v[0] * p.element + b)
  {
    assert v[1..] == [];
    assert Offset(p.element, p.dstDims, p.dstOffsets, v) == (p.dstOffsets[0] + v[0]) * p.element;
    assert Offset(p.element, p.srcDims, p.srcOffsets, v) == (p.srcOffsets[0] + v[0]) * p.element;
    assert (p.dstOffsets[0] + v[0]) * p.element == p.element * p.dstOffsets[0] + v[0] * p.element;
    assert (p.srcOffsets[0] + v[0]) * p.element == p.element * p.srcOffsets[0] + v[0] * p.element;
  }

  const OFFLOAD_SUCCESS := 0
  const OFFLOAD_FAIL := -1

  /** omp_target_memcpy between ready devices; it refuses an empty block. */
  method TargetMemcpy(dst: HostMemory, dp: int, src: Mem, sp: int, length: nat, dstOffset: nat, srcOffset: nat)
    returns (rc: int)
    modifies dst
    ensures rc == if length == 0 then OFFLOAD_FAIL else OFFLOAD_SUCCESS
    ensures dst.bytes == Copy(old(dst.bytes), dp + dstOffset, src, sp + srcOffset, length) || length == 0
    ensures length == 0 ==> dst.bytes == old(dst.bytes)
  {
    if length <= 0 {
      return OFFLOAD_FAIL;
    }
    dst.bytes := Copy(dst.bytes, dp + dstOffset, src, sp + srcOffset, length);
    return OFFLOAD_SUCCESS;
  }

  /** The slice sizes, computed from the inner dimensions. */
  method SliceSize(element: nat, dims: seq<nat>) returns (size: nat)
    requires |dims| >= 1
    ensures size == Slice(element, dims)
  {
    size := element;
    var i := 1;
    while i < |dims|
      invariant 1 <= i <= |dims|
      invariant Slice(element, dims) == Slice(size, dims[i - 1..])
    {
      SliceStep(size, dims[i - 1..]);
      assert dims[i - 1..][1..] == dims[i..];
      size := Times(size, dims[i]);
      i := i + 1;
    }
  }

  lemma {:induction false} SliceStep(element: nat, dims: seq<nat>)
    requires |dims| >= 2
    ensures Slice(element, dims) == Slice(Times(element, dims[1]), dims[1..])
    decreases |dims|
  {
    if |dims| > 2 {
      SliceStep(element, dims[1..]);
      SliceScales(element, dims[1], dims[1..]);
    }
  }

  lemma {:induction false} SliceScales(element: nat, d: nat, dims: seq<nat>)
    ensures Slice(Times(element, d), dims) == d * Slice(element, dims)
    decreases |dims|
  {
    if |dims| > 1 {
      SliceScales(element, d, dims[1..]);
      assert dims[1] * (d * Slice(element, dims[1..])) == d * (dims[1] * Slice(element, dims[1..]));
    }
  }

  /**
   * What the call returns: failure for an empty innermost dimension, and for an empty outer one
   * the value that its result variable happens to hold.
   */
  function ReturnCode(volume: seq<nat>, unset: int): int
    requires |volume| >= 1
  {
    if |volume| == 1 then if volume[0] == 0 then OFFLOAD_FAIL else OFFLOAD_SUCCESS
    else if volume[0] == 0 then unset
    else ReturnCode(volume[1..], unset)
  }

  /** Success does not depend on chance exactly when every volume is positive. */
  lemma {:induction false} SucceedsIffPositive(volume: seq<nat>)
    requires |volume| >= 1
    ensures ReturnCode(volume, OFFLOAD_FAIL) == OFFLOAD_SUCCESS
      <==> forall i :: 0 <= i < |volume| ==> volume[i] >= 1
    ensures (forall i :: 0 <= i < |volume| ==> volume[i] >= 1) ==>
      forall unset :: ReturnCode(volume, unset) == OFFLOAD_SUCCESS
    decreases |volume|
  {
    if |volume| > 1 {
      SucceedsIffPositive(volume[1..]);
      assert volume == [volume[0]] + volume[1..];
    }
  }

  /** An empty innermost dimension is a failure, an empty outer one leaves the result to chance. */
  lemma EmptyVolumeFails(unset: int)
    ensures ReturnCode([1, 0], unset) == OFFLOAD_FAIL && ReturnCode([0, 1], unset) == unset
  {
    assert [1, 0][1..] == [0];
  }

  /** An empty volume has no elements, so nothing was copied and nothing is missing. */
  lemma EmptyIsCopied(m0: Mem, m1: Mem, p: Plan, q: Plan, dp: int, src: Mem, sp: int, i: nat)
    requires p.Valid() && q.Valid() && |q.volume| == |p.volume|
    requires i < |p.volume| && p.volume[i] == q.volume[i] == 0
    requires Copied(m0, m1, q, dp, src, sp)
    ensures Copied(m0, m1, p, dp, src, sp)
  {
    hide DstByte, SrcByte, InVolume;
    NoVectors(p.volume, i);
    NoVectors(q.volume, i);
    forall a
      ensures m1(a) == m0(a)
    {
      assert m1(a) == m0(a) || Covers(q, dp, a);
    }
  }

  lemma NoVectors(volume: seq<nat>, i: nat)
    requires i < |volume| && volume[i] == 0
    ensures forall v :: !InVolume(v, volume)
  {
    forall v
      ensures !InVolume(v, volume)
    {
      assert |v| == |volume| ==> v[i] >= 0;
    }
  }

  /** A failing slice has an empty dimension, so the whole volume is empty. */
  lemma FailedSliceIsEmpty(m0: Mem, m1: Mem, p: Plan, dp: int, src: Mem, sp: int, i: nat, unset: int)
    requires p.Valid() && |p.volume| >= 2 && i < p.volume[0]
    requires ReturnCode(p.Inner().volume, unset) != OFFLOAD_SUCCESS
    requires Copied(m0, m1, p.First(i + 1), dp, src, sp)
    ensures Copied(m0, m1, p, dp, src, sp)
  {
    hide Copied;
    SucceedsIffPositive(p.Inner().volume);
    var j :| 0 <= j < |p.Inner().volume| && p.Inner().volume[j] < 1;
    EmptyIsCopied(m0, m1, p, p.First(i + 1), dp, src, sp, j + 1);
  }

  /**
   * Copies exactly the elements whose index vector lies in the volume, and changes no other
   * destination byte. src is the source memory as it is when the copy starts; unset is what an
   * unassigned result variable holds.
   */
  method TargetMemcpyRect(dst: HostMemory, dp: int, src: Mem, sp: int, p: Plan, unset: int) returns (rc: int)
    requires p.Valid() && p.InsideDst()
    modifies dst
    ensures Copied(old(dst.bytes), dst.bytes, p, dp, src, sp)
    ensures rc == ReturnCode(p.volume, unset)
    ensures p.Positive() ==> rc == OFFLOAD_SUCCESS
    decreases |p.volume|
  {
    hide Copied, Covers, Slice;
    SucceedsIffPositive(p.volume);
    if |p.volume| == 1 {
      var length := Times(p.element, p.volume[0]);
      RowIsCopied(dst.bytes, p, dp, src, sp);
      EmptyOrNot(p.element, p.volume[0]);
      if p.volume[0] == 0 {
        NothingIsCopied(dst.bytes, p, dp, src, sp);
      }
      rc := TargetMemcpy(dst, dp, src, sp, length, Times(p.element, p.dstOffsets[0]), Times(p.element, p.srcOffsets[0]));
    } else {
      var dstSlice := SliceSize(p.element, p.dstDims);
      var srcSlice := SliceSize(p.element, p.srcDims);
      var dstOff := p.dstOffsets[0] * dstSlice;
      var srcOff := p.srcOffsets[0] * srcSlice;
      NoSlices(dst.bytes, p, dp, src, sp);
      rc := unset;
      for i := 0 to p.volume[0]
        invariant rc == if i == 0 then unset else OFFLOAD_SUCCESS
        invariant i > 0 ==> ReturnCode(p.Inner().volume, unset) == OFFLOAD_SUCCESS
        invariant Copied(old(dst.bytes), dst.bytes, p.First(i), dp, src, sp)
      {
        ghost var before := dst.bytes;
        SliceStart(dp, p.dstOffsets[0], dstSlice, i);
        SliceStart(sp, p.srcOffsets[0], srcSlice, i);
        rc := TargetMemcpyRect(dst, dp + dstOff + dstSlice * i, src, sp + srcOff + srcSlice * i, p.Inner(), unset);
        AddSlice(old(dst.bytes), before, dst.bytes, p, dp, src, sp, i);
        if rc != OFFLOAD_SUCCESS {
          FailedSliceIsEmpty(old(dst.bytes), dst.bytes, p, dp, src, sp, i, unset);
          return rc;
        }
      }
      assert p.First(p.volume[0]) == p;
    }
  }

  lemma EmptyOrNot(a: nat, b: nat)
    requires a >= 1
    ensures Times(a, b) == 0 <==> b == 0
  {
    if b >= 1 {
      TimesMonotone(1, a, b);
    }
  }

  lemma NothingIsCopied(m: Mem, p: Plan, dp: int, src: Mem, sp: int)
    requires p.Valid() && p.volume[0] == 0
    ensures Copied(m, m, p, dp, src, sp)
  {
  }

  lemma SliceStart(base: int, offset: nat, slice: nat, i: nat)
    ensures base + offset * slice + slice * i == base + Times(offset + i, slice)
  {
  }

  const INT_MAX := 0x7fff_ffff

  /** The whole entry point, with its checks of the arguments. */
  method OmpTargetMemcpyRect(
    dst: HostMemory, dp: int, dstNull: bool, src: Mem, sp: int, srcNull: bool, p: Plan, unset: int
  ) returns (rc: int)
    requires |p.dstOffsets| == |p.srcOffsets| == |p.dstDims| == |p.srcDims| == |p.volume|
    requires p.Valid() ==> p.InsideDst()
    modifies dst
    ensures dstNull && srcNull ==> rc == INT_MAX
    ensures dstNull != srcNull || (!dstNull && !p.Valid()) ==> rc == OFFLOAD_FAIL
    ensures dstNull || srcNull || !p.Valid() ==> dst.bytes == old(dst.bytes)
    ensures !dstNull && !srcNull && p.Valid() ==>
      rc == ReturnCode(p.volume, unset) && Copied(old(dst.bytes), dst.bytes, p, dp, src, sp)
  {
    if dstNull && srcNull {
      return INT_MAX;
    }
    if dstNull || srcNull || p.element < 1 || |p.volume| < 1 {
      return OFFLOAD_FAIL;
    }
    rc := TargetMemcpyRect(dst, dp, src, sp, p, unset);
  }
}
