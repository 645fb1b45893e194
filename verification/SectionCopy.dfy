/** Copying one array section into another: descriptors, checks, iterators and the copy loop together. */
module SectionCopy {
  import opened Memory
  import opened Lattice
  import opened Sections
  import opened SectionBytes
  import opened SectionIterator
  import opened CopyLoop

  /** The destination's ranges do not divide a contiguous source, whose end the loop then misses. */
  predicate StepsOver(srcDims: seq<Dim>, dstDims: seq<Dim>)
    requires WellFormed(srcDims) && WellFormed(dstDims)
  {
    RangeSizePositive(dstDims);
    && Contiguous(srcDims) && !Contiguous(dstDims)
    && RangeSize(dstDims) < |Visit(srcDims, 0)| && !Divides(RangeSize(dstDims), |Visit(srcDims, 0)|)
  }

  /** What the runtime checks before the transfer: matching ranges, and a destination that is large enough. */
  predicate Checked(srcDims: seq<Dim>, dstDims: seq<Dim>)
    requires WellFormed(srcDims) && WellFormed(dstDims)
  {
    RangeSizePositive(srcDims);
    RangeSizePositive(dstDims);
    && |Visit(srcDims, 0)| <= |Visit(dstDims, 0)|
    && (!Contiguous(srcDims) && !Contiguous(dstDims) ==> RangesMatch(RangeSize(srcDims), RangeSize(dstDims)))
  }

  lemma RangeSizePositive(dims: seq<Dim>)
    requires WellFormed(dims)
    ensures RangeSize(dims) >= 1
  {
    var k := LastNoncont(dims, |dims| - 1);
    assert ProperDim(dims[if k >= 0 then k else 0]);
    ProductPositive(dims[if k >= 0 then k else 0].Extent(), dims[if k >= 0 then k else 0].size);
  }

  /** A section visits no more bytes than lie between its corners. */
  lemma VisitFitsSpan(dims: seq<Dim>)
    requires WellFormed(dims)
    ensures 1 <= |Visit(dims, 0)| <= Hi(dims) - Lo(dims)
  {
    var s := Visit(dims, 0);
    VisitIsOrdered(dims, 0);
    AtLeast(s, Lo(dims), |s| - 1);
    assert s[|s| - 1] < Hi(dims);
  }

  lemma DistinctPlaces(dims: seq<Dim>, src: Mem, from: int, s: seq<int>, n: nat)
    requires WellFormed(dims) && n <= |Visit(dims, 0)| && n <= |s|
    ensures Consistent(Visit(dims, 0), src, from, s, n)
  {
    VisitIsOrdered(dims, 0);
  }

  lemma DeliveredPrefix(m0: Mem, m: Mem, to: int, d: seq<int>, d': seq<int>, src: Mem, from: int, s: seq<int>, n: nat)
    requires n <= |d| && n <= |d'| && n <= |s| && forall k :: 0 <= k < n ==> d[k] == d'[k]
    requires Delivered(m0, m, to, d, src, from, s, n)
    ensures Delivered(m0, m, to, d', src, from, s, n)
  {
    forall a
      ensures m(a) == m0(a) || Receives(to, d', n, a)
    {
      if Receives(to, d, n, a) {
        var k :| 0 <= k < n && to + d[k] == a;
        assert to + d'[k] == a;
      }
    }
  }

  /** How the runtime describes one side: offset and length, and an iterator unless it is contiguous. */
  method Describe(dims: seq<Dim>) returns (rng: CeanReadRanges?, disp: int, size: nat)
    requires WellFormed(dims)
    ensures disp == Lo(dims) && size == Hi(dims) - Lo(dims) && size >= 1
    ensures rng == null <==> Contiguous(dims)
    ensures rng != null ==>
      fresh(rng) && rng.Valid() && rng.currentNumber == 0 && rng.rangeSize == RangeSize(dims) >= 1
    ensures rng != null ==> rng.Bytes(rng.rangeMaxNumber) == Visit(dims, 0)
    ensures rng == null ==> Interval(disp, size) == Visit(dims, 0)
  {
    hide Visit, Lo, Hi, RangeSize, LastNoncont, IterLoops, Flat, ContiguousFrom;
    VisitFitsSpan(dims);
    RangeSizePositive(dims);
    var length;
    disp, length := ArrDataOffsetAndLength(dims);
    size := length;
    var contiguous := IsArrDescContiguous(dims);
    if contiguous {
      rng := null;
      ContiguousIsTheSpan(dims, 0);
    } else {
      rng := InitReadRangesArrDesc(dims);
      NoncontiguousHasANoncontiguousDim(dims);
    }
  }

  /**
   * One section copied into another, at least one of them noncontiguous. Unless the checks stop
   * it, every byte of the source section arrives at the byte of the destination section of the
   * same number, and nothing else changes; except when the loop steps over the source's end:
   * then it fills all of the destination, with bytes from behind the source too, and fails.
   */
  method SendSection(srcDims: seq<Dim>, dstDims: seq<Dim>, src: Mem, from: int, dst: Buffer, to: int)
    returns (checked: bool, ok: bool)
    requires WellFormed(srcDims) && WellFormed(dstDims) && !(Contiguous(srcDims) && Contiguous(dstDims))
    modifies dst
    ensures checked == Checked(srcDims, dstDims)
    ensures !checked ==> !ok && dst.bytes == old(dst.bytes)
    ensures checked ==> ok == !StepsOver(srcDims, dstDims)
    ensures var s, d := Visit(srcDims, 0), Visit(dstDims, 0);
      && (ok ==> |s| <= |d| && Delivered(old(dst.bytes), dst.bytes, to, d, src, from, s, |s|))
      && (checked && !ok ==>
            Delivered(old(dst.bytes), dst.bytes, to, d, src, from, Interval(Lo(srcDims), |d|), |d|))
  {
    hide Visit, Lo, Hi, RangeSize, ContiguousFrom, Delivered, Sent, Consistent, Flat;
    ghost var s, d := Visit(srcDims, 0), Visit(dstDims, 0);
    VisitFitsSpan(srcDims);
    var rngSrc, cpuDisp, size := Describe(srcDims);
    var rngDst, disp, sizeInto := Describe(dstDims);
    if rngSrc != null && rngDst != null
       && rngSrc.rangeSize % rngDst.rangeSize != 0 && rngDst.rangeSize % rngSrc.rangeSize != 0 {
      return false, false;
    }
    var sizeSrc, sizeDst := size, sizeInto;
    if rngSrc != null {
      sizeSrc := CeanGetTransfSize(rngSrc);
    }
    if rngDst != null {
      sizeDst := CeanGetTransfSize(rngDst);
    }
    assert sizeSrc == |s| && sizeDst == |d|;
    if sizeSrc > sizeDst {
      return false, false;
    }
    checked := true;
    ghost var m0 := dst.bytes;
    ok := SendNoncontiguous(rngSrc, rngDst, true, size, cpuDisp, disp, src, from, dst, to);
    if rngDst == null {
      assert Consistent(Interval(disp, size), src, from, s, |s|) by {
        IntervalIsConsistent(disp, size, src, from, s);
      }
      DeliveredPrefix(m0, dst.bytes, to, Interval(disp, size), d, src, from, s, |s|);
    } else if ok {
      DistinctPlaces(dstDims, src, from, s, |s|);
    } else {
      DistinctPlaces(dstDims, src, from, Interval(cpuDisp, |d|), |d|);
    }
  }

  lemma IntervalIsConsistent(disp: int, size: nat, src: Mem, from: int, s: seq<int>)
    requires |s| <= size
    ensures Consistent(Interval(disp, size), src, from, s, |s|)
  {
  }

  /** Ten contiguous bytes into three rows of four pass the checks, and are stepped over. */
  lemma TenBytesIntoRowsOfFour()
    ensures var srcDims, dstDims := [Dim(1, 0, 0, 9, 1)], [Dim(8, 0, 0, 2, 1), Dim(4, 0, 0, 0, 1)];
      && WellFormed(srcDims) && WellFormed(dstDims) && Checked(srcDims, dstDims) && StepsOver(srcDims, dstDims)
  {
    var row, rows, ten := Dim(4, 0, 0, 0, 1), Dim(8, 0, 0, 2, 1), Dim(1, 0, 0, 9, 1);
    var dstDims := [rows, row];
    assert ProperDim(row) && ProperDim(rows) && ProperDim(ten) && FitsAt(dstDims, 1);
    assert !Contiguous(dstDims) by {
      assert !ContiguousFrom(dstDims, 0, 4);
    }
    assert Contiguous([ten]);
    assert !Full(dstDims, 1) && LastNoncont(dstDims, 1) == 1 && RangeSize(dstDims) == 4;
    assert |Visit([ten], 0)| == 10;
    assert dstDims[1..] == [row];
    forall i
      ensures |Turn(dstDims, 0, i)| == 4
    {
    }
    assert Sweep(dstDims, 0, 3) == [];
    assert |Sweep(dstDims, 0, 2)| == 4 && |Sweep(dstDims, 0, 1)| == 8 && |Sweep(dstDims, 0, 0)| == 12;
  }
}
