/** The iterator over the contiguous ranges of a section or of a dope vector. */
module SectionIterator {
  import opened Lattice
  import opened Sections
  import opened SectionBytes

  class CeanReadRanges {
    /** The number of ranges read since the last rewind. */
    var currentNumber: nat
    const rangeMaxNumber: nat
    const rangeSize: nat
    /** Dim, whose last index is last_noncont_ind. */
    const dim: seq<Digit>
    const initOffset: int

    constructor (max: nat, size: nat, dim: seq<Digit>, offset: int)
      ensures rangeMaxNumber == max && rangeSize == size && this.dim == dim && initOffset == offset
      ensures currentNumber == 0
    {
      rangeMaxNumber, rangeSize, initOffset := max, size, offset;
      this.dim := dim;
      currentNumber := 0;
    }

    ghost predicate Valid()
      reads this
    {
      Counting(dim) && currentNumber <= rangeMaxNumber
    }

    /** The bytes of the first k ranges; Bytes(rangeMaxNumber) are all of them. */
    ghost function Bytes(k: nat): seq<int>
      requires Counting(dim)
    {
      Flat(dim, initOffset, rangeSize, k)
    }

    /** get_next_range; after the last range it answers false and starts over. */
    method GetNextRange() returns (more: bool, offset: int)
      requires Valid()
      modifies this
      ensures Valid()
      ensures more == (old(currentNumber) < rangeMaxNumber)
      ensures currentNumber == if more then old(currentNumber) + 1 else 0
      ensures more ==> Bytes(currentNumber) == Bytes(old(currentNumber)) + Interval(offset, rangeSize)
    {
      currentNumber := currentNumber + 1;
      if currentNumber > rangeMaxNumber {
        currentNumber := 0;
        return false, 0;
      }
      var rank, num, curOffset := 0, currentNumber - 1, 0;
      while rank < |dim|
        invariant 0 <= rank <= |dim| && 0 <= num
        invariant currentNumber == old(currentNumber) + 1
        invariant MixedOffset(dim, currentNumber - 1) == curOffset + MixedOffset(dim[rank..], num)
      {
        var numLoc := num / dim[rank].count;
        curOffset := curOffset + numLoc * dim[rank].size;
        num := num % dim[rank].count;
        assert dim[rank..][1..] == dim[rank + 1..];
        rank := rank + 1;
      }
      return true, curOffset + initOffset;
    }
  }

  // ------------------------------------------------- array descriptors

  /** Where the search for the largest contiguous range stops: last_noncont_ind. */
  function LastNoncont(dims: seq<Dim>, rank: int): (k: int)
    requires -1 <= rank < |dims|
    ensures -1 <= k <= rank
    decreases rank
  {
    if rank >= 0 && dims[rank].stride == 1 && (rank == 0 || Full(dims, rank)) then LastNoncont(dims, rank - 1)
    else rank
  }

  function RangeSize(dims: seq<Dim>): nat
    requires WellFormed(dims)
  {
    var k := LastNoncont(dims, |dims| - 1);
    ProperDims(dims);
    assert ProperDim(dims[if k >= 0 then k else 0]);
    if k == -1 then Product(dims[0].Extent(), dims[0].size)
    else if dims[k].stride == 1 then Product(dims[k].Extent(), dims[k].size)
    else dims[k].size
  }

  /** The loop that dimension r of the iterator runs, k being the last noncontiguous one. */
  function IterLoop(dims: seq<Dim>, r: nat, k: nat): Loop
    requires WellFormed(dims) && r <= k < |dims|
  {
    assert ProperDim(dims[r]);
    if r == k && dims[r].stride == 1 then Loop(1, dims[r].size) else LoopOf(dims[r])
  }

  function IterLoops(dims: seq<Dim>, r: nat, k: int): (ls: seq<Loop>)
    requires WellFormed(dims) && r <= k + 1 <= |dims|
    ensures Running(ls) && |ls| == k + 1 - r
    decreases k + 1 - r
  {
    if r == k + 1 then [] else
      assert ProperDim(dims[r]);
      StepsBound(dims[r]);
      [IterLoop(dims, r, k)] + IterLoops(dims, r + 1, k)
  }

  function LoPart(dims: seq<Dim>, r: nat, k: int): int
    requires r <= k + 1 <= |dims|
    decreases k + 1 - r
  {
    if r == k + 1 then 0 else (dims[r].lower - dims[r].lindex) * dims[r].size + LoPart(dims, r + 1, k)
  }

  /** The first loop of init_read_ranges_arr_desc: the largest contiguous range. */
  method FindContiguous(dims: seq<Dim>) returns (rank: int, length: nat)
    requires WellFormed(dims)
    ensures rank == LastNoncont(dims, |dims| - 1)
    ensures length == RangeSize(dims)
  {
    rank := |dims| - 1;
    ProperDims(dims);
    length := dims[rank].size;
    while rank >= 0
      invariant -1 <= rank < |dims| && LastNoncont(dims, |dims| - 1) == LastNoncont(dims, rank)
      invariant length == if rank >= 0 then dims[rank].size else Product(dims[0].Extent(), dims[0].size)
    {
      if dims[rank].stride == 1 {
        length := Product(dims[rank].upper - dims[rank].lower + 1, length);
        if rank > 0 && length != dims[rank - 1].size {
          break;
        }
      } else {
        break;
      }
      rank := rank - 1;
    }
  }

  /** One round of the second loop: the entry of dimension r and the number of ranges from r on. */
  lemma DigitsStep(dims: seq<Dim>, r: nat, k: int)
    requires WellFormed(dims) && r <= k < |dims|
    ensures ProperDim(dims[r])
    ensures var loop := IterLoop(dims, r, k);
            && Digits(IterLoops(dims, r, k))
               == [Digit(Total(IterLoops(dims, r + 1, k)), dims[r].stride * dims[r].size)]
                  + Digits(IterLoops(dims, r + 1, k))
            && Total(IterLoops(dims, r, k)) == loop.n * Total(IterLoops(dims, r + 1, k))
            && loop.n == if r == k && dims[r].stride == 1 then 1 else dims[r].Steps()
  {
    assert ProperDim(dims[r]);
    assert IterLoops(dims, r, k)[1..] == IterLoops(dims, r + 1, k);
  }

  /** The second loop: the dimension entries, inner to outer, with their count and offset. */
  method FillDims(dims: seq<Dim>, k: int) returns (dim: array<Digit>, count: nat, offset: int)
    requires WellFormed(dims) && -1 <= k < |dims|
    ensures fresh(dim) && dim[..] == Digits(IterLoops(dims, 0, k))
    ensures count == Total(IterLoops(dims, 0, k)) && offset == LoPart(dims, 0, k)
  {
    var rank := k;
    dim := new Digit[rank + 1];
    count, offset := 1, 0;
    var prevIsCont := true;
    while rank >= 0
      invariant -1 <= rank <= k && dim.Length == k + 1
      invariant dim[rank + 1..] == Digits(IterLoops(dims, rank + 1, k))
      invariant count == Total(IterLoops(dims, rank + 1, k))
      invariant prevIsCont == (rank == k)
      invariant offset == LoPart(dims, rank + 1, k)
    {
      DigitsStep(dims, rank, k);
      ghost var before := dim[rank + 1..];
      dim[rank] := Digit(count, dims[rank].stride * dims[rank].size);
      assert dim[rank..] == [dim[rank]] + before;
      var steps := (dims[rank].upper - dims[rank].lower + dims[rank].stride) / dims[rank].stride;
      count := (if prevIsCont && dims[rank].stride == 1 then 1 else steps) * count;
      prevIsCont := false;
      offset := offset + (dims[rank].lower - dims[rank].lindex) * dims[rank].size;
      rank := rank - 1;
    }
    assert dim[..] == dim[0..];
  }

  /** init_read_ranges_arr_desc. */
  method InitReadRangesArrDesc(dims: seq<Dim>) returns (res: CeanReadRanges)
    requires WellFormed(dims)
    ensures fresh(res) && res.Valid() && res.currentNumber == 0
    ensures var k := LastNoncont(dims, |dims| - 1);
            && res.dim == Digits(IterLoops(dims, 0, k))
            && res.rangeMaxNumber == Total(IterLoops(dims, 0, k))
            && res.rangeSize == RangeSize(dims)
            && res.initOffset == LoPart(dims, 0, k)
  {
    var rank, length := FindContiguous(dims);
    var dim, count, offset := FillDims(dims, rank);
    DigitsCount(IterLoops(dims, 0, rank));
    res := new CeanReadRanges(count, length, dim[..], offset);
  }

  // ----------------------------------------------------------- correctness

  /** The bytes an iterator set up for the section ranges over. */
  function IteratedBytes(dims: seq<Dim>): seq<int>
    requires WellFormed(dims)
  {
    var k := LastNoncont(dims, |dims| - 1);
    DigitsCount(IterLoops(dims, 0, k));
    Flat(Digits(IterLoops(dims, 0, k)), LoPart(dims, 0, k), RangeSize(dims), Total(IterLoops(dims, 0, k)))
  }

  lemma {:induction false} FullBelowLastNoncont(dims: seq<Dim>, rank: int)
    requires -1 <= rank < |dims|
    ensures var k := LastNoncont(dims, rank);
            forall j :: k < j <= rank ==> dims[j].stride == 1 && (j > 0 ==> Full(dims, j))
    decreases rank
  {
    if rank >= 0 && dims[rank].stride == 1 && (rank == 0 || Full(dims, rank)) {
      FullBelowLastNoncont(dims, rank - 1);
    }
  }

  /** Inner dimensions that are full and unstrided merge into one range. */
  lemma {:induction false} MergeFull(dims: seq<Dim>, k: int, base: int)
    requires WellFormed(dims) && -1 <= k < |dims|
    requires forall j :: k < j < |dims| ==> dims[j].stride == 1 && (j > 0 ==> Full(dims, j))
    ensures ProperDim(dims[if k >= 0 then k else 0])
    ensures Nest(AllLoops(dims), base, ElementSize(dims))
         == if k >= 0 then Nest(AllLoops(dims)[..k + 1], base, dims[k].size)
            else Interval(base, Product(dims[0].Extent(), dims[0].size))
    decreases |dims| - k
  {
    hide Nest, Fits;
    ProperDims(dims);
    var loops := AllLoops(dims);
    if k == |dims| - 1 {
      assert loops[..k + 1] == loops;
    } else {
      MergeFull(dims, k + 1, base);
      var d := dims[k + 1];
      StepsBound(d);
      assert loops[..k + 2] == loops[..k + 1] + [Loop(d.Extent(), d.size)];
      MergeInnermost(loops[..k + 1], d.Extent(), base, d.size);
      if k >= 0 {
        assert Full(dims, k + 1);
      } else {
        assert loops[..0] == [];
        NestOfNothing(base, Product(d.Extent(), d.size));
      }
    }
  }

  lemma {:induction false} IterLoopsAre(dims: seq<Dim>, r: nat, k: int)
    requires WellFormed(dims) && r <= k < |dims|
    ensures IterLoops(dims, r, k) == AllLoops(dims)[r..k] + [IterLoop(dims, k, k)]
    decreases k - r
  {
    if r < k {
      IterLoopsAre(dims, r + 1, k);
      assert ProperDim(dims[r]);
      assert AllLoops(dims)[r..k] == [LoopOf(dims[r])] + AllLoops(dims)[r + 1..k];
    } else {
      assert IterLoops(dims, k + 1, k) == [];
    }
  }

  /** The iterator's loops visit what all loops of the section visit. */
  lemma IterLoopsVisitAll(dims: seq<Dim>, base: int)
    requires WellFormed(dims)
    ensures Nest(IterLoops(dims, 0, LastNoncont(dims, |dims| - 1)), base, RangeSize(dims))
         == Nest(AllLoops(dims), base, ElementSize(dims))
  {
    var k := LastNoncont(dims, |dims| - 1);
    FullBelowLastNoncont(dims, |dims| - 1);
    MergeFull(dims, k, base);
    if k >= 0 {
      IterLoopsVisitOuter(dims, k, base);
    }
  }

  lemma IterLoopsVisitOuter(dims: seq<Dim>, k: nat, base: int)
    requires WellFormed(dims) && k < |dims| && k == LastNoncont(dims, |dims| - 1)
    ensures ProperDim(dims[k])
    ensures Nest(IterLoops(dims, 0, k), base, RangeSize(dims)) == Nest(AllLoops(dims)[..k + 1], base, dims[k].size)
  {
    hide Nest;
    var loops, d := AllLoops(dims), dims[k];
    IterLoopsAre(dims, 0, k);
    StepsBound(d);
    assert loops[0..k] == loops[..k];
    assert loops[..k + 1] == loops[..k] + [LoopOf(d)];
    if d.stride == 1 {
      MergeInnermost(loops[..k], d.Extent(), base, d.size);
      DropSingle(loops[..k], d.size, base, RangeSize(dims));
    }
  }

  lemma {:induction false} LoPartIsLo(dims: seq<Dim>, r: nat, k: int)
    requires WellFormed(dims) && r <= k + 1 <= |dims|
    ensures LoPart(dims, r, k) + Lo(dims[k + 1..]) == Lo(dims[r..])
    decreases k + 1 - r
  {
    if r <= k {
      LoPartIsLo(dims, r + 1, k);
      assert dims[r..][1..] == dims[r + 1..];
    }
  }

  lemma NoncontInitOffset(dims: seq<Dim>, k: nat)
    requires WellFormed(dims) && k < |dims| && k == LastNoncont(dims, |dims| - 1)
    ensures LoPart(dims, 0, k) == Lo(dims)
  {
    assert LoPart(dims, 0, k) + Lo(dims[k + 1..]) == Lo(dims) by {
      LoPartIsLo(dims, 0, k);
      assert dims[0..] == dims;
    }
    assert Lo(dims[k + 1..]) == 0 by {
      if k + 1 < |dims| {
        FullBelowLastNoncont(dims, |dims| - 1);
        FullTail(dims, k + 1);
        FullStartsAtLindex(dims, k + 1);
      }
    }
  }

  lemma ContInitOffset(dims: seq<Dim>)
    requires WellFormed(dims) && LastNoncont(dims, |dims| - 1) == -1
    ensures Lo(dims) == (dims[0].lower - dims[0].lindex) * dims[0].size
  {
    FullBelowLastNoncont(dims, |dims| - 1);
    FullTail(dims, 0);
    assert dims[0..] == dims;
  }

  /** The initial offset is the section's lower corner, except that it is 0 if nothing is noncontiguous. */
  lemma InitOffsetIsLo(dims: seq<Dim>)
    requires WellFormed(dims)
    ensures LoPart(dims, 0, LastNoncont(dims, |dims| - 1)) == Lo(dims)
            <==> LastNoncont(dims, |dims| - 1) >= 0 || dims[0].lower == dims[0].lindex
  {
    var k := LastNoncont(dims, |dims| - 1);
    if k >= 0 {
      NoncontInitOffset(dims, k);
    } else {
      ContInitOffset(dims);
      assert ProperDim(dims[0]);
      if dims[0].lower > dims[0].lindex {
        AtLeastOnce(dims[0].lower - dims[0].lindex, dims[0].size);
      }
    }
  }

  lemma VisitAtZero(dims: seq<Dim>, base: int)
    requires WellFormed(dims) && base == 0
    ensures Visit(dims, base) == Nest(AllLoops(dims), Lo(dims), ElementSize(dims))
  {
    VisitIsNest(dims, base);
  }

  lemma NestTellsBase(loops: seq<Loop>, x: int, y: int, len: nat)
    requires Nested(loops, len) && len >= 1
    ensures Nest(loops, x, len) == Nest(loops, y, len) <==> x == y
  {
    NestIncreases(loops, x, len);
    NestIncreases(loops, y, len);
  }

  lemma IteratedIsNest(dims: seq<Dim>)
    requires WellFormed(dims)
    ensures IteratedBytes(dims)
         == Nest(AllLoops(dims), LoPart(dims, 0, LastNoncont(dims, |dims| - 1)), ElementSize(dims))
  {
    var k := LastNoncont(dims, |dims| - 1);
    MixedRadix(IterLoops(dims, 0, k), LoPart(dims, 0, k), RangeSize(dims));
    IterLoopsVisitAll(dims, LoPart(dims, 0, k));
  }

  /**
   * The ranges read from the iterator, one after the other, are exactly the bytes the nested
   * loops visit, in the same order, if and only if some dimension is noncontiguous or the
   * outermost one starts at its lower index.
   */
  lemma IteratorVisitsSection(dims: seq<Dim>)
    requires WellFormed(dims)
    ensures IteratedBytes(dims) == Visit(dims, 0)
            <==> LastNoncont(dims, |dims| - 1) >= 0 || dims[0].lower == dims[0].lindex
  {
    var loops, len := AllLoops(dims), ElementSize(dims);
    var x, y := LoPart(dims, 0, LastNoncont(dims, |dims| - 1)), Lo(dims);
    assert IteratedBytes(dims) == Nest(loops, x, len) by {
      IteratedIsNest(dims);
    }
    assert Visit(dims, 0) == Nest(loops, y, len) by {
      VisitAtZero(dims, 0);
    }
    assert Nest(loops, x, len) == Nest(loops, y, len) <==> x == y by {
      LoopsAreNested(dims);
      NestTellsBase(loops, x, y, len);
    }
    InitOffsetIsLo(dims);
  }

  /** The runtime sets up iterators only for sections it does not take for contiguous. */
  lemma NoncontiguousHasANoncontiguousDim(dims: seq<Dim>)
    requires WellFormed(dims) && !Contiguous(dims)
    ensures LastNoncont(dims, |dims| - 1) >= 0
    ensures IteratedBytes(dims) == Visit(dims, 0)
  {
    if LastNoncont(dims, |dims| - 1) == -1 {
      FullBelowLastNoncont(dims, |dims| - 1);
      AllFullIsContiguous(dims, |dims| - 1);
    }
    IteratorVisitsSection(dims);
  }

  lemma {:induction false} AllFullIsContiguous(dims: seq<Dim>, rank: int)
    requires WellFormed(dims) && 0 <= rank < |dims|
    requires forall j :: 0 <= j <= rank ==> dims[j].stride == 1 && (j > 0 ==> Full(dims, j))
    ensures ContiguousFrom(dims, rank, dims[rank].size)
    decreases rank
  {
    if rank > 0 {
      assert Full(dims, rank);
      AllFullIsContiguous(dims, rank - 1);
    }
  }

  /** Set up all the same for a contiguous section that begins at its second byte. */
  lemma ShiftedSectionIsMisread()
    ensures var dims := [Dim(1, 0, 1, 2, 1)];
      WellFormed(dims) && Contiguous(dims) && IteratedBytes(dims) != Visit(dims, 0)
  {
    var d := Dim(1, 0, 1, 2, 1);
    assert ProperDim(d);
    assert LastNoncont([d], 0) == -1;
    IteratorVisitsSection([d]);
  }
}
