/** Fortran dope vectors: contiguity, length, and the iterator over their contiguous ranges. */
module DopeVector {
  import opened Lattice
  import opened SectionIterator

  /** Extent is a number of elements, mult the distance in bytes between two of them. */
  datatype DvDim = DvDim(extent: nat, mult: int)

  /** dims[0] varies fastest; flagContiguous is ArrDescFlagsContiguous. */
  datatype ArrDesc = ArrDesc(len: nat, flagContiguous: bool, dims: seq<DvDim>)

  predicate Allocated(dv: ArrDesc) {
    dv.len >= 1 && forall i :: 0 <= i < |dv.dims| ==> dv.dims[i].extent >= 1
  }

  /** The loops over the dimensions, the last of which is outermost. */
  function DvLoops(dims: seq<DvDim>): (ls: seq<Loop>)
    ensures |ls| == |dims|
    ensures forall j {:trigger ls[j]} :: 0 <= j < |dims| ==> ls[j] == Loop(dims[|dims| - 1 - j].extent, dims[|dims| - 1 - j].mult)
  {
    if |dims| == 0 then [] else
      var last := dims[|dims| - 1];
      [Loop(last.extent, last.mult)] + DvLoops(dims[..|dims| - 1])
  }

  /** The bytes of the array in element order. */
  function DvBytes(dv: ArrDesc, base: int): seq<int> {
    Nest(DvLoops(dv.dims), base, dv.len)
  }

  /** Bytes in a stretch of elements that runs through the first i dimensions. */
  function Stretch(dv: ArrDesc, i: nat): nat
    requires i <= |dv.dims|
  {
    if i == 0 then dv.len else Product(dv.dims[i - 1].extent, Stretch(dv, i - 1))
  }

  /** The first i dimensions are laid out without gaps. */
  predicate Packed(dv: ArrDesc, i: nat)
    requires i <= |dv.dims|
  {
    forall k :: 0 <= k < i ==> dv.dims[k].mult == Stretch(dv, k)
  }

  predicate FirstGap(dv: ArrDesc, i: nat)
    requires i <= |dv.dims|
  {
    Packed(dv, i) && (i < |dv.dims| ==> dv.dims[i].mult != Stretch(dv, i))
  }

  method DvIsContiguous(dv: ArrDesc) returns (b: bool)
    ensures b == (dv.flagContiguous || Packed(dv, |dv.dims|))
  {
    if dv.flagContiguous {
      return true;
    }
    if |dv.dims| != 0 {
      if dv.dims[0].mult != dv.len {
        assert dv.dims[0].mult != Stretch(dv, 0);
        return false;
      }
      for i := 1 to |dv.dims|
        invariant Packed(dv, i)
      {
        if dv.dims[i].mult != dv.dims[i - 1].extent * dv.dims[i - 1].mult {
          assert dv.dims[i].mult != Stretch(dv, i);
          return false;
        }
      }
    }
    return true;
  }

  /** __dv_data_length: the distance from the first to after the last byte. */
  method DvDataLength(dv: ArrDesc) returns (size: int)
    ensures size == Span(DvLoops(dv.dims), dv.len)
  {
    size := dv.len;
    for i := 0 to |dv.dims|
      invariant size == Span(DvLoops(dv.dims[..i]), dv.len)
    {
      assert dv.dims[..i + 1][..i] == dv.dims[..i];
      size := size + (dv.dims[i].extent - 1) * dv.dims[i].mult;
    }
    assert dv.dims[..|dv.dims|] == dv.dims;
  }

  /** That is how far the array reaches: from its first element's first byte to its last one's last. */
  lemma DataLengthIsTheReach(dv: ArrDesc, base: int)
    requires Allocated(dv)
    ensures var bytes := DvBytes(dv, base);
      |bytes| >= 1 && bytes[0] == base && bytes[|bytes| - 1] == base + Span(DvLoops(dv.dims), dv.len) - 1
  {
    NestEnds(DvLoops(dv.dims), base, dv.len);
  }

  /** If every dimension steps over the ones inside it, all bytes lie in between. */
  lemma DataLengthHoldsAll(dv: ArrDesc, base: int, i: nat)
    requires Allocated(dv) && Nested(DvLoops(dv.dims), dv.len) && i < |DvBytes(dv, base)|
    ensures base <= DvBytes(dv, base)[i] < base + Span(DvLoops(dv.dims), dv.len)
  {
    NestIncreases(DvLoops(dv.dims), base, dv.len);
    SpreadIsBetween(DvBytes(dv, base), base, base + Span(DvLoops(dv.dims), dv.len), i);
  }

  // ---------------------------------------------------------- the iterator

  /** The loops outside of the first i dimensions. */
  function OuterLoops(dv: ArrDesc, i: nat): seq<Loop>
    requires i <= |dv.dims|
  {
    DvLoops(dv.dims)[..|dv.dims| - i]
  }

  /** The loops over dimensions from .. to - 1, outermost first. */
  function LoopsBetween(dv: ArrDesc, from: nat, to: nat): seq<Loop>
    requires from <= to <= |dv.dims|
  {
    DvLoops(dv.dims)[|dv.dims| - to..|dv.dims| - from]
  }

  method FindGap(dv: ArrDesc) returns (i: nat, len: nat)
    requires |dv.dims| > 0
    ensures i <= |dv.dims| && FirstGap(dv, i)
    ensures len == Stretch(dv, if i < |dv.dims| then i else i - 1)
  {
    i := 0;
    len := dv.len;
    if dv.dims[0].mult == len {
      i := 1;
      while i < |dv.dims|
        invariant 1 <= i <= |dv.dims| && Packed(dv, i)
        invariant len == Stretch(dv, i - 1)
      {
        len := Product(dv.dims[i - 1].extent, len);
        if dv.dims[i].mult != len {
          break;
        }
        i := i + 1;
      }
    }
  }

  lemma BetweenStep(dv: ArrDesc, from: nat, to: nat)
    requires from <= to < |dv.dims| && Allocated(dv)
    ensures LoopsBetween(dv, from, to + 1)
         == [Loop(dv.dims[to].extent, dv.dims[to].mult)] + LoopsBetween(dv, from, to)
    ensures Running(LoopsBetween(dv, from, to)) && Running(LoopsBetween(dv, from, to + 1))
    ensures Total(LoopsBetween(dv, from, to + 1)) == dv.dims[to].extent * Total(LoopsBetween(dv, from, to))
    ensures Digits(LoopsBetween(dv, from, to + 1))
         == [Digit(Total(LoopsBetween(dv, from, to)), dv.dims[to].mult)] + Digits(LoopsBetween(dv, from, to))
  {
    assert LoopsBetween(dv, from, to + 1)[1..] == LoopsBetween(dv, from, to);
  }

  lemma BetweenEnds(dv: ArrDesc, gap: nat)
    requires gap <= |dv.dims|
    ensures Digits(LoopsBetween(dv, gap, gap)) == [] && Total(LoopsBetween(dv, gap, gap)) == 1
    ensures LoopsBetween(dv, gap, |dv.dims|) == OuterLoops(dv, gap)
  {
    assert LoopsBetween(dv, gap, gap) == [];
  }

  /** The dimension entries from the first gap on, inner to outer. */
  method FillDvDims(dv: ArrDesc, gap: nat) returns (dim: array<Digit>, count: nat)
    requires Allocated(dv) && gap <= |dv.dims|
    ensures fresh(dim) && dim[..] == Digits(OuterLoops(dv, gap)) && count == Total(OuterLoops(dv, gap))
  {
    hide LoopsBetween, OuterLoops, Digits;
    var rank, i := |dv.dims|, gap;
    dim := new Digit[rank - i];
    count := 1;
    BetweenEnds(dv, gap);
    while i < rank
      invariant gap <= i <= rank && dim.Length == rank - gap
      invariant dim[rank - i..] == Digits(LoopsBetween(dv, gap, i))
      invariant count == Total(LoopsBetween(dv, gap, i))
    {
      BetweenStep(dv, gap, i);
      var k := rank - i - 1;
      ghost var before := dim[k + 1..];
      dim[k] := Digit(count, dv.dims[i].mult);
      assert dim[k + 1..] == before;
      assert dim[k..] == [dim[k]] + dim[k + 1..];
      count := dv.dims[i].extent * count;
      i := i + 1;
    }
    assert dim[..] == dim[0..];
  }

  /**
   * The iterator of a dope vector, none for a scalar: it reads the bytes of the array in element
   * order, unless nothing is left for it to step over and the last dimension has several elements.
   */
  method InitReadRangesDv(dv: ArrDesc) returns (res: CeanReadRanges?)
    requires Allocated(dv)
    ensures res == null <==> |dv.dims| == 0
    ensures res != null ==> fresh(res) && res.Valid() && res.currentNumber == 0 && res.initOffset == 0
    ensures res != null ==> exists i: nat :: i <= |dv.dims| && FirstGap(dv, i) && SetUpAt(dv, i, res)
    ensures res != null ==>
      (res.Bytes(res.rangeMaxNumber) == DvBytes(dv, 0)
       <==> !Packed(dv, |dv.dims|) || dv.dims[|dv.dims| - 1].extent == 1)
  {
    hide DvBytes, IteratedDv;
    if |dv.dims| == 0 {
      return null;
    }
    var i, len := FindGap(dv);
    var dim, count := FillDvDims(dv, i);
    DigitsCount(OuterLoops(dv, i));
    res := new CeanReadRanges(count, len, dim[..], 0);
    assert SetUpAt(dv, i, res);
    SetUpReads(dv, i, res);
    DvIteratorReadsArray(dv, i);
    GapUnlessPacked(dv, i);
  }

  lemma GapUnlessPacked(dv: ArrDesc, i: nat)
    requires i <= |dv.dims| && FirstGap(dv, i)
    ensures Packed(dv, |dv.dims|) <==> i == |dv.dims|
  {
  }

  lemma SetUpReads(dv: ArrDesc, i: nat, res: CeanReadRanges)
    requires Allocated(dv) && i <= |dv.dims| && |dv.dims| > 0 && SetUpAt(dv, i, res) && res.initOffset == 0
    ensures Counting(res.dim) && res.Bytes(res.rangeMaxNumber) == IteratedDv(dv, i)
  {
    DigitsCount(OuterLoops(dv, i));
  }

  /** The fields an iterator over dv has when dimension i is the first with a gap. */
  ghost predicate SetUpAt(dv: ArrDesc, i: nat, res: CeanReadRanges)
    requires i <= |dv.dims| && |dv.dims| > 0
  {
    && res.dim == Digits(OuterLoops(dv, i))
    && res.rangeMaxNumber == Total(OuterLoops(dv, i))
    && res.rangeSize == Stretch(dv, if i < |dv.dims| then i else i - 1)
  }

  /** The bytes that iterator ranges over. */
  function IteratedDv(dv: ArrDesc, i: nat): seq<int>
    requires Allocated(dv) && i <= |dv.dims| && |dv.dims| > 0
  {
    assert Running(OuterLoops(dv, i));
    DigitsCount(OuterLoops(dv, i));
    Flat(Digits(OuterLoops(dv, i)), 0, Stretch(dv, if i < |dv.dims| then i else i - 1), Total(OuterLoops(dv, i)))
  }

  /** Packed inner dimensions are one longer stretch. */
  lemma {:induction false} MergePacked(dv: ArrDesc, i: nat, base: int)
    requires i <= |dv.dims| && Packed(dv, i)
    ensures DvBytes(dv, base) == Nest(OuterLoops(dv, i), base, Stretch(dv, i))
    decreases i
  {
    if i == 0 {
      assert OuterLoops(dv, 0) == DvLoops(dv.dims);
    } else {
      MergePacked(dv, i - 1, base);
      var d := dv.dims[i - 1];
      assert OuterLoops(dv, i - 1) == OuterLoops(dv, i) + [Loop(d.extent, d.mult)];
      MergeInnermost(OuterLoops(dv, i), d.extent, base, Stretch(dv, i - 1));
    }
  }

  lemma GapIteratorReadsArray(dv: ArrDesc, i: nat, base: int)
    requires Allocated(dv) && i < |dv.dims| && FirstGap(dv, i) && base == 0
    ensures IteratedDv(dv, i) == DvBytes(dv, base)
  {
    MergePacked(dv, i, base);
    MixedRadix(OuterLoops(dv, i), base, Stretch(dv, i));
  }

  /** Without a gap the iterator stops one dimension short. */
  lemma PackedIteratorReadsRow(dv: ArrDesc, base: int)
    requires Allocated(dv) && |dv.dims| > 0 && FirstGap(dv, |dv.dims|) && base == 0
    ensures IteratedDv(dv, |dv.dims|) == Interval(base, Stretch(dv, |dv.dims| - 1))
    ensures DvBytes(dv, base) == Interval(base, Stretch(dv, |dv.dims|))
  {
    var i := |dv.dims|;
    assert OuterLoops(dv, i) == [];
    MergePacked(dv, i, base);
    MixedRadix([], base, Stretch(dv, i - 1));
  }

  lemma OneRowOnly(n: nat, len: nat)
    requires n >= 1 && len >= 1
    ensures n * len == len <==> n == 1
  {
    if n > 1 {
      MultipleTooBig(n - 1, len);
      assert n * len == (n - 1) * len + len;
    }
  }

  /**
   * The iterator reads exactly the bytes of the array, in element order, if and only if
   * there is a gap, or the last dimension has a single element.
   */
  lemma DvIteratorReadsArray(dv: ArrDesc, i: nat)
    requires Allocated(dv) && |dv.dims| > 0 && i <= |dv.dims| && FirstGap(dv, i)
    ensures IteratedDv(dv, i) == DvBytes(dv, 0) <==> i < |dv.dims| || dv.dims[i - 1].extent == 1
  {
    if i < |dv.dims| {
      GapIteratorReadsArray(dv, i, 0);
    } else {
      PackedIteratorReadsRow(dv, 0);
      StretchPositive(dv, i - 1);
      OneRowOnly(dv.dims[i - 1].extent, Stretch(dv, i - 1));
      assert Stretch(dv, i) == dv.dims[i - 1].extent * Stretch(dv, i - 1);
      assert |IteratedDv(dv, i)| == Stretch(dv, i - 1) && |DvBytes(dv, 0)| == Stretch(dv, i);
    }
  }

  lemma StretchPositive(dv: ArrDesc, i: nat)
    requires Allocated(dv) && i <= |dv.dims|
    ensures Stretch(dv, i) >= 1
  {
    if i > 0 {
      StretchPositive(dv, i - 1);
      ProductPositive(dv.dims[i - 1].extent, Stretch(dv, i - 1));
    }
  }

  /** An iterator is only made for a dope vector that is not contiguous. */
  lemma NoncontiguousDvHasAGap(dv: ArrDesc, i: nat)
    requires Allocated(dv) && |dv.dims| > 0 && i <= |dv.dims| && FirstGap(dv, i)
    requires !(dv.flagContiguous || Packed(dv, |dv.dims|))
    ensures i < |dv.dims| && IteratedDv(dv, i) == DvBytes(dv, 0)
  {
    assert !FirstGap(dv, |dv.dims|);
    DvIteratorReadsArray(dv, i);
  }

  /** Set up all the same for two packed elements, it reads the first only. */
  lemma PackedArrayIsCutShort()
    ensures var dv := ArrDesc(4, false, [DvDim(2, 4)]);
      FirstGap(dv, 1) && IteratedDv(dv, 1) != DvBytes(dv, 0)
  {
    DvIteratorReadsArray(ArrDesc(4, false, [DvDim(2, 4)]), 1);
  }
}
