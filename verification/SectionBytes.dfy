/** A section as a lattice of bytes, and the interval it spans. */
module SectionBytes {
  import opened Lattice
  import opened Sections

  function LoopOf(d: Dim): Loop
    requires ProperDim(d)
  {
    StepsBound(d);
    Loop(d.Steps(), d.stride * d.size)
  }

  function Loops(dims: seq<Dim>): (ls: seq<Loop>)
    requires forall i :: 0 <= i < |dims| ==> ProperDim(dims[i])
    ensures |ls| == |dims|
    ensures forall i :: 0 <= i < |dims| ==> ls[i] == LoopOf(dims[i])
  {
    if |dims| == 0 then [] else [LoopOf(dims[0])] + Loops(dims[1..])
  }

  /** Offset of the section's lower corner. */
  function Lo(dims: seq<Dim>): int {
    if |dims| == 0 then 0 else (dims[0].lower - dims[0].lindex) * dims[0].size + Lo(dims[1..])
  }

  /** Offset just after the element at the section's upper corner. */
  function Hi(dims: seq<Dim>): int
    requires |dims| >= 1
  {
    (dims[0].upper - dims[0].lindex) * dims[0].size + if |dims| == 1 then dims[0].size else Hi(dims[1..])
  }

  function ElementSize(dims: seq<Dim>): nat
    requires WellFormed(dims)
  {
    assert ProperDim(dims[|dims| - 1]);
    dims[|dims| - 1].size
  }

  lemma ProperDims(dims: seq<Dim>)
    requires WellFormed(dims)
    ensures forall i :: 0 <= i < |dims| ==> ProperDim(dims[i])
  {
    forall i | 0 <= i < |dims|
      ensures ProperDim(dims[i])
    {
    }
  }

  /** All of a section's loops. */
  function AllLoops(dims: seq<Dim>): seq<Loop>
    requires WellFormed(dims)
  {
    ProperDims(dims);
    Loops(dims)
  }

  lemma AllLoopsTail(dims: seq<Dim>)
    requires WellFormed(dims) && |dims| >= 2
    ensures WellFormed(dims[1..]) && AllLoops(dims)[1..] == AllLoops(dims[1..])
    ensures ElementSize(dims) == ElementSize(dims[1..])
  {
    WellFormedTail(dims);
  }

  // -------------------------------------------------- Visit as a lattice

  lemma TurnAddress(d: Dim, base: int, rest: int, k: int)
    ensures (base + (d.lower - d.lindex) * d.size + rest) + k * (d.stride * d.size)
         == base + ((d.lower - d.lindex) + k * d.stride) * d.size + rest
  {
    var i := d.lower - d.lindex;
    assert k * (d.stride * d.size) == (k * d.stride) * d.size;
    assert (i + k * d.stride) * d.size == i * d.size + (k * d.stride) * d.size;
  }

  /** One turn of the source's loop is one turn of the lattice. */
  lemma {:induction false} TurnIsNest(dims: seq<Dim>, base: int, k: nat)
    requires WellFormed(dims)
    ensures var d := dims[0];
            Turn(dims, base, (d.lower - d.lindex) + k * d.stride)
            == Nest(AllLoops(dims)[1..], base + Lo(dims) + k * (d.stride * d.size), ElementSize(dims))
    decreases |dims|, 0
  {
    var d := dims[0];
    TurnAddress(d, base, Lo(dims[1..]), k);
    if |dims| > 1 {
      AllLoopsTail(dims);
      VisitIsNest(dims[1..], base + ((d.lower - d.lindex) + k * d.stride) * d.size);
    }
  }

  /** The loop from its first index on is the first k turns of the lattice and what is left. */
  lemma {:induction false} SweepIsTurns(dims: seq<Dim>, base: int, k: nat)
    requires WellFormed(dims) && ProperDim(dims[0]) && k <= dims[0].Steps()
    ensures var d := dims[0];
            Sweep(dims, base, d.lower - d.lindex)
            == Turns(AllLoops(dims), base + Lo(dims), ElementSize(dims), k)
               + Sweep(dims, base, (d.lower - d.lindex) + k * d.stride)
    decreases |dims|, 1, k
  {
    hide Nest, Visit, Turn, Fits, Lo;
    if k > 0 {
      var d, loops, len := dims[0], AllLoops(dims), ElementSize(dims);
      var at, i := base + Lo(dims), d.lower - d.lindex + (k - 1) * d.stride;
      SweepIsTurns(dims, base, k - 1);
      StepsBound(d);
      StrideOrder(k, d.Steps(), d.stride);
      TurnIsNest(dims, base, k - 1);
      assert i + d.stride == d.lower - d.lindex + k * d.stride;
      Associative(Turns(loops, at, len, k - 1), Turn(dims, base, i), Sweep(dims, base, i + d.stride));
    }
  }

  lemma StrideOrder(k: nat, n: nat, stride: nat)
    requires 1 <= k <= n
    ensures (k - 1) * stride <= (n - 1) * stride
  {
  }

  /** The bytes of a section are those of its lattice of elements, in the same order. */
  lemma {:induction false} VisitIsNest(dims: seq<Dim>, base: int)
    requires WellFormed(dims)
    ensures Visit(dims, base) == Nest(AllLoops(dims), base + Lo(dims), ElementSize(dims))
    decreases |dims|, 2
  {
    ProperDims(dims);
    var d := dims[0];
    StepsBound(d);
    if |dims| == 1 && d.stride == 1 {
      assert AllLoops(dims) == [Loop(d.Extent(), d.size)];
      IntervalTurns(d.size, base + Lo(dims), d.Extent());
    } else {
      SweepIsTurns(dims, base, d.Steps());
    }
  }

  // ------------------------------------------------------------ its bounds

  lemma MulMonotone(a: int, b: int, n: nat)
    requires a <= b
    ensures a * n <= b * n
  {
  }

  lemma AtLeastOnce(a: nat, n: nat)
    requires a >= 1
    ensures a * n >= n
  {
  }

  /** Dimension d alone: its loop reaches no further than the upper bound. */
  lemma LoopReach(d: Dim)
    requires ProperDim(d)
    ensures LoopOf(d).n >= 1 && LoopOf(d).step >= d.size && (d.lower - d.lindex) * d.size >= 0
    ensures (LoopOf(d).n - 1) * LoopOf(d).step <= (d.upper - d.lindex) * d.size - (d.lower - d.lindex) * d.size
    ensures (d.upper - d.lindex + 1) * d.size == (d.upper - d.lindex) * d.size + d.size
  {
    StepsBound(d);
    AtLeastOnce(d.stride, d.size);
    assert (d.Steps() - 1) * (d.stride * d.size) == ((d.Steps() - 1) * d.stride) * d.size;
    MulMonotone((d.Steps() - 1) * d.stride, d.upper - d.lower, d.size);
    assert (d.upper - d.lindex) * d.size - (d.lower - d.lindex) * d.size == (d.upper - d.lower) * d.size;
    NonNegative(d.lower - d.lindex, d.size);
  }

  /** The loops of a well-formed section nest properly and stay between its corners. */
  lemma {:induction false} LoopsAreNested(dims: seq<Dim>)
    requires WellFormed(dims)
    ensures Nested(AllLoops(dims), ElementSize(dims)) && ElementSize(dims) >= 1
    ensures 0 <= Lo(dims) && Span(AllLoops(dims), ElementSize(dims)) <= Hi(dims) - Lo(dims)
    ensures Hi(dims) <= (dims[0].upper - dims[0].lindex + 1) * dims[0].size
    decreases |dims|
  {
    ProperDims(dims);
    LoopReach(dims[0]);
    if |dims| == 1 {
      assert AllLoops(dims)[1..] == [] && dims[1..] == [];
    } else {
      AllLoopsTail(dims);
      WellFormedTail(dims);
      LoopsAreNested(dims[1..]);
      SolidIffCountIsSpan(AllLoops(dims[1..]), ElementSize(dims));
    }
  }

  /** Every byte of the section is visited once, in ascending order, between the two corners. */
  lemma VisitIsOrdered(dims: seq<Dim>, base: int)
    requires WellFormed(dims)
    ensures Increasing(Visit(dims, base)) && |Visit(dims, base)| >= 1 && Visit(dims, base)[0] == base + Lo(dims)
    ensures forall i :: 0 <= i < |Visit(dims, base)| ==> base + Lo(dims) <= Visit(dims, base)[i] < base + Hi(dims)
  {
    var s, lo, hi := Visit(dims, base), base + Lo(dims), base + Lo(dims) + Span(AllLoops(dims), ElementSize(dims));
    assert Spread(s, lo, hi) && hi <= base + Hi(dims) by {
      VisitIsNest(dims, base);
      LoopsAreNested(dims);
      NestIncreases(AllLoops(dims), base + Lo(dims), ElementSize(dims));
    }
    forall i | 0 <= i < |s|
      ensures lo <= s[i] < hi
    {
      SpreadIsBetween(s, lo, hi, i);
    }
  }

  // ---------------------------------------------- offset and length of it

  /** The section takes all of dimension j's part of dimension j - 1. */
  predicate Full(dims: seq<Dim>, j: nat)
    requires 1 <= j < |dims|
  {
    dims[j].Extent() * dims[j].size == dims[j - 1].size
  }

  lemma FullStartsAtLindex(dims: seq<Dim>, j: nat)
    requires WellFormed(dims) && 1 <= j < |dims| && Full(dims, j)
    ensures dims[j].lower == dims[j].lindex
  {
    var d := dims[j];
    assert ProperDim(d) && FitsAt(dims, j);
    if d.lower > d.lindex {
      assert (d.upper - d.lindex + 1) * d.size == d.Extent() * d.size + (d.lower - d.lindex) * d.size;
      AtLeastOnce(d.lower - d.lindex, d.size);
    }
  }

  /** Past a full dimension the corners coincide with the dimension's own. */
  lemma {:induction false} FullTail(dims: seq<Dim>, k: nat)
    requires WellFormed(dims) && k < |dims|
    requires forall j :: k < j < |dims| ==> Full(dims, j)
    ensures Lo(dims[k..]) == (dims[k].lower - dims[k].lindex) * dims[k].size
    ensures Hi(dims[k..]) == (dims[k].upper - dims[k].lindex + 1) * dims[k].size
    decreases |dims| - k
  {
    var d, tail := dims[k], dims[k..];
    assert (d.upper - d.lindex + 1) * d.size == (d.upper - d.lindex) * d.size + d.size;
    if k + 1 < |dims| {
      assert tail[1..] == dims[k + 1..];
      FullTail(dims, k + 1);
      FullStartsAtLindex(dims, k + 1);
      assert Full(dims, k + 1);
    } else {
      assert tail[1..] == [];
    }
  }

  /** How the corners' offsets, and the rest that ends at the upper corner, grow by a dimension. */
  lemma CornersGrow(dims: seq<Dim>, rank: nat)
    requires rank < |dims| - 1
    ensures Lo(dims[rank..]) == (dims[rank].lower - dims[rank].lindex) * dims[rank].size + Lo(dims[rank + 1..])
    ensures Hi(dims[rank..]) == (dims[rank].upper - dims[rank].lindex + 1) * dims[rank].size - dims[rank].size
                                + Hi(dims[rank + 1..])
  {
    assert dims[rank..][1..] == dims[rank + 1..];
    assert (dims[rank].upper - dims[rank].lindex + 1) * dims[rank].size
        == (dims[rank].upper - dims[rank].lindex) * dims[rank].size + dims[rank].size;
  }

  /** __arr_data_offset_and_length: the span from the lower corner to the end of the upper one. */
  method ArrDataOffsetAndLength(dims: seq<Dim>) returns (offset: int, length: int)
    requires WellFormed(dims)
    ensures offset == Lo(dims)
    ensures offset + length == Hi(dims)
  {
    hide Fits;
    var rank := |dims| - 1;
    var size := dims[rank].size;
    var rOff := 0;
    while rank > 0
      invariant 0 <= rank < |dims| && size == dims[rank].size
      invariant forall j :: rank < j < |dims| ==> Full(dims, j)
    {
      size := size * (dims[rank].upper - dims[rank].lower + 1);
      if size != dims[rank - 1].size {
        break;
      }
      rank := rank - 1;
    }
    FullTail(dims, rank);
    hide Lo, Hi, Full;
    offset := (dims[rank].lower - dims[rank].lindex) * dims[rank].size;
    rank := rank - 1;
    while rank >= 0
      invariant -1 <= rank < |dims| - 1
      invariant offset == Lo(dims[rank + 1..])
      invariant (dims[rank + 1].upper - dims[rank + 1].lindex + 1) * dims[rank + 1].size - rOff == Hi(dims[rank + 1..])
    {
      offset := offset + (dims[rank].lower - dims[rank].lindex) * dims[rank].size;
      rOff := rOff + (dims[rank].size
                      - (dims[rank + 1].upper - dims[rank + 1].lindex + 1) * dims[rank + 1].size);
      CornersGrow(dims, rank);
      rank := rank - 1;
    }
    assert dims[0..] == dims;
    length := (dims[0].upper - dims[0].lindex + 1) * dims[0].size - offset - rOff;
  }

  // ------------------------------------------------- contiguous sections

  predicate Single(d: Dim) {
    d.upper == d.lower
  }

  predicate Strided(d: Dim) {
    d.stride > 1 && !Single(d)
  }

  /** is_arr_desc_contiguous from dimension rank outwards, length bytes being contiguous inside. */
  predicate ContiguousFrom(dims: seq<Dim>, rank: int, length: int)
    requires -1 <= rank < |dims|
    decreases rank
  {
    if rank == -1 then true
    else if Strided(dims[rank]) then false
    else if length != dims[rank].size then forall j :: 0 <= j <= rank ==> Single(dims[j])
    else ContiguousFrom(dims, rank - 1, length * dims[rank].Extent())
  }

  method IsArrDescContiguous(dims: seq<Dim>) returns (b: bool)
    requires WellFormed(dims)
    ensures b == ContiguousFrom(dims, |dims| - 1, ElementSize(dims))
  {
    var rank := |dims| - 1;
    var length := dims[rank].size;
    while rank >= 0
      invariant -1 <= rank < |dims|
      invariant ContiguousFrom(dims, |dims| - 1, ElementSize(dims)) == ContiguousFrom(dims, rank, length)
    {
      if dims[rank].stride > 1 && dims[rank].upper - dims[rank].lower != 0 {
        return false;
      } else if length != dims[rank].size {
        ghost var from := rank;
        while rank >= 0
          invariant -1 <= rank <= from
          invariant forall j :: rank < j <= from ==> Single(dims[j])
        {
          if dims[rank].upper - dims[rank].lower != 0 {
            return false;
          }
          rank := rank - 1;
        }
        return true;
      }
      length := length * (dims[rank].upper - dims[rank].lower + 1);
      rank := rank - 1;
    }
    return true;
  }

  /** Every strided dimension has a second step. */
  predicate Reaches(dims: seq<Dim>) {
    forall i :: 0 <= i < |dims| && Strided(dims[i]) ==> dims[i].stride <= dims[i].upper - dims[i].lower
  }

  /** The lattice of the dimensions from r on. */
  function Inner(dims: seq<Dim>, r: nat): seq<Loop>
    requires WellFormed(dims) && r <= |dims|
  {
    AllLoops(dims)[r..]
  }

  lemma InnerStep(dims: seq<Dim>, r: nat)
    requires WellFormed(dims) && r < |dims|
    ensures ProperDim(dims[r]) && Inner(dims, r) == [LoopOf(dims[r])] + Inner(dims, r + 1)
    ensures r + 1 < |dims| ==> FitsAt(dims, r + 1)
  {
    ProperDims(dims);
  }

  lemma WellFormedFrom(dims: seq<Dim>, r: nat)
    requires WellFormed(dims) && r < |dims|
    ensures WellFormed(dims[r..]) && AllLoops(dims[r..]) == Inner(dims, r) && ElementSize(dims[r..]) == ElementSize(dims)
    decreases r
  {
    if r > 0 {
      WellFormedFrom(dims, r - 1);
      assert dims[r - 1..][1..] == dims[r..];
      AllLoopsTail(dims[r - 1..]);
      assert Inner(dims, r - 1)[1..] == Inner(dims, r);
    } else {
      assert dims[0..] == dims;
    }
  }

  lemma SectionFits(dims: seq<Dim>)
    requires WellFormed(dims)
    ensures 1 <= Count(AllLoops(dims), ElementSize(dims)) <= (dims[0].upper - dims[0].lindex + 1) * dims[0].size
  {
    LoopsAreNested(dims);
    SolidIffCountIsSpan(AllLoops(dims), ElementSize(dims));
  }

  /** What lies inside dimension r fits into one element of it. */
  lemma InnerFits(dims: seq<Dim>, r: nat)
    requires WellFormed(dims) && r < |dims|
    ensures 1 <= Count(Inner(dims, r + 1), ElementSize(dims)) <= dims[r].size
  {
    hide Count, ElementSize, AllLoops;
    if r + 1 < |dims| {
      var tail := dims[r + 1..];
      WellFormedFrom(dims, r + 1);
      SectionFits(tail);
      assert FitsAt(dims, r + 1) && tail[0] == dims[r + 1];
    } else {
      InnermostFits(dims);
    }
  }

  lemma InnermostFits(dims: seq<Dim>)
    requires WellFormed(dims)
    ensures 1 <= Count(Inner(dims, |dims|), ElementSize(dims)) <= dims[|dims| - 1].size
  {
    assert ProperDim(dims[|dims| - 1]);
  }

  lemma SizesGrow(dims: seq<Dim>, j: nat, r: nat)
    requires WellFormed(dims) && j <= r < |dims|
    ensures dims[j].size >= dims[r].size
    decreases r - j
  {
    if j < r {
      SizesGrow(dims, j + 1, r);
      ProperDims(dims);
      assert FitsAt(dims, j + 1);
      AtLeastOnce(dims[j + 1].upper - dims[j + 1].lindex + 1, dims[j + 1].size);
    }
  }

  lemma StepsOf(dims: seq<Dim>, r: nat)
    requires WellFormed(dims) && r < |dims|
    ensures ProperDim(dims[r]) && LoopOf(dims[r]).n >= 1
    ensures Single(dims[r]) ==> LoopOf(dims[r]).n == 1
    ensures !Strided(dims[r]) ==> LoopOf(dims[r]).n == dims[r].Extent()
    ensures Reaches(dims) && !Single(dims[r]) ==> LoopOf(dims[r]).n >= 2
    ensures LoopOf(dims[r]).step >= dims[r].size
    ensures Strided(dims[r]) ==> LoopOf(dims[r]).step > dims[r].size
    ensures dims[r].stride == 1 ==> LoopOf(dims[r]).step == dims[r].size
  {
    ProperDims(dims);
    var d := dims[r];
    StepsBound(d);
    AtLeastOnce(d.stride, d.size);
    if d.stride > 1 {
      MulMonotone(2, d.stride, d.size);
    }
  }

  lemma SingleTurn(dims: seq<Dim>, r: nat)
    requires WellFormed(dims) && r < |dims| && ProperDim(dims[r]) && LoopOf(dims[r]).n == 1
    ensures Count(Inner(dims, r), ElementSize(dims)) == Count(Inner(dims, r + 1), ElementSize(dims))
    ensures Solid(Inner(dims, r), ElementSize(dims)) <==> Solid(Inner(dims, r + 1), ElementSize(dims))
  {
    InnerStep(dims, r);
    assert Inner(dims, r)[1..] == Inner(dims, r + 1);
  }

  /** Dimensions around a gap are solid only if none of them turns twice. */
  lemma {:induction false} GapNeedsSingles(dims: seq<Dim>, j: nat)
    requires WellFormed(dims) && j <= |dims|
    requires j > 0 ==> Count(Inner(dims, j), ElementSize(dims)) < dims[j - 1].size
    ensures (forall i :: 0 <= i < j ==> Single(dims[i])) && Solid(Inner(dims, j), ElementSize(dims))
            ==> Solid(Inner(dims, 0), ElementSize(dims))
    ensures Reaches(dims) && Solid(Inner(dims, 0), ElementSize(dims))
            ==> (forall i :: 0 <= i < j ==> Single(dims[i])) && Solid(Inner(dims, j), ElementSize(dims))
    decreases j
  {
    hide Fits, LoopOf, Count, ElementSize;
    if j > 0 {
      var len := ElementSize(dims);
      StepsOf(dims, j - 1);
      InnerStep(dims, j - 1);
      assert Inner(dims, j - 1)[1..] == Inner(dims, j);
      if LoopOf(dims[j - 1]).n == 1 {
        SingleTurn(dims, j - 1);
        if j > 1 {
          SizesGrow(dims, j - 2, j - 1);
        }
        GapNeedsSingles(dims, j - 1);
      } else {
        if Solid(Inner(dims, 0), len) {
          SolidSuffix(dims, j - 1);
        }
      }
    }
  }

  lemma SolidSuffix(dims: seq<Dim>, r: nat)
    requires WellFormed(dims) && r <= |dims| && Solid(Inner(dims, 0), ElementSize(dims))
    ensures Solid(Inner(dims, r), ElementSize(dims))
    decreases r
  {
    if r > 0 {
      SolidSuffix(dims, r - 1);
      InnerStep(dims, r - 1);
      assert Inner(dims, r - 1)[1..] == Inner(dims, r);
    }
  }

  lemma {:induction false} ContiguousIffSolid(dims: seq<Dim>, rank: int, length: int)
    requires WellFormed(dims) && -1 <= rank < |dims|
    requires length == Count(Inner(dims, rank + 1), ElementSize(dims))
    requires Solid(Inner(dims, rank + 1), ElementSize(dims))
    ensures ContiguousFrom(dims, rank, length) ==> Solid(Inner(dims, 0), ElementSize(dims))
    ensures Reaches(dims) && Solid(Inner(dims, 0), ElementSize(dims)) ==> ContiguousFrom(dims, rank, length)
    decreases rank
  {
    hide Fits, LoopOf, ElementSize;
    var len := ElementSize(dims);
    if rank >= 0 {
      StepsOf(dims, rank);
      InnerFits(dims, rank);
      InnerStep(dims, rank);
      assert Inner(dims, rank)[1..] == Inner(dims, rank + 1);
      if Strided(dims[rank]) {
        if Solid(Inner(dims, 0), len) {
          SolidSuffix(dims, rank);
        }
      } else if length != dims[rank].size {
        GapNeedsSingles(dims, rank + 1);
      } else {
        assert length * dims[rank].Extent() == Count(Inner(dims, rank), len);
        ContiguousIffSolid(dims, rank - 1, length * dims[rank].Extent());
      }
    }
  }

  lemma {:induction false} ContiguousIsNotStrided(dims: seq<Dim>, rank: int, length: int)
    requires -1 <= rank < |dims| && ContiguousFrom(dims, rank, length)
    ensures forall j :: 0 <= j <= rank ==> !Strided(dims[j])
    decreases rank
  {
    if rank >= 0 && length == dims[rank].size {
      ContiguousIsNotStrided(dims, rank - 1, length * dims[rank].Extent());
    }
  }

  /** Without strides the last visited element is the one at the upper corner. */
  lemma {:induction false} UnstridedSpan(dims: seq<Dim>)
    requires WellFormed(dims) && forall j :: 0 <= j < |dims| ==> !Strided(dims[j])
    ensures Span(AllLoops(dims), ElementSize(dims)) == Hi(dims) - Lo(dims)
    decreases |dims|
  {
    ProperDims(dims);
    var d := dims[0];
    StepsBound(d);
    assert (d.Steps() - 1) * (d.stride * d.size) == (d.upper - d.lower) * d.size;
    assert (d.upper - d.lindex) * d.size - (d.lower - d.lindex) * d.size == (d.upper - d.lower) * d.size;
    if |dims| > 1 {
      AllLoopsTail(dims);
      UnstridedSpan(dims[1..]);
    } else {
      assert AllLoops(dims)[1..] == [] && dims[1..] == [];
    }
  }

  predicate Contiguous(dims: seq<Dim>)
    requires WellFormed(dims)
  {
    ContiguousFrom(dims, |dims| - 1, ElementSize(dims))
  }

  /** A contiguous section is exactly the interval that offset and length describe. */
  lemma ContiguousIsTheSpan(dims: seq<Dim>, base: int)
    requires WellFormed(dims) && Contiguous(dims)
    ensures Hi(dims) >= Lo(dims)
    ensures Visit(dims, base) == Interval(base + Lo(dims), Hi(dims) - Lo(dims))
  {
    assert Inner(dims, 0) == AllLoops(dims) && Inner(dims, |dims|) == [];
    ContiguousIffSolid(dims, |dims| - 1, ElementSize(dims));
    ContiguousIsNotStrided(dims, |dims| - 1, ElementSize(dims));
    UnstridedSpan(dims);
    VisitIsNest(dims, base);
    LoopsAreNested(dims);
    SolidIffCountIsSpan(AllLoops(dims), ElementSize(dims));
    IntervalIffSolid(AllLoops(dims), base + Lo(dims), ElementSize(dims));
  }

  ghost predicate VisitsInterval(dims: seq<Dim>, base: int)
    requires WellFormed(dims)
  {
    exists a, n: nat :: Visit(dims, base) == Interval(a, n)
  }

  lemma ReachingIffInterval(dims: seq<Dim>, base: int)
    requires WellFormed(dims) && Reaches(dims)
    ensures Contiguous(dims) <==> VisitsInterval(dims, base)
  {
    assert Inner(dims, 0) == AllLoops(dims) && Inner(dims, |dims|) == [];
    ContiguousIffSolid(dims, |dims| - 1, ElementSize(dims));
    VisitIsNest(dims, base);
    LoopsAreNested(dims);
    IntervalIffSolid(AllLoops(dims), base + Lo(dims), ElementSize(dims));
  }

  /**
   * The contiguous sections are those that visit an interval and have no strided dimension.
   * So the test errs on sections that visit an interval through a strided dimension, and it
   * does not err when every stride reaches a second element of its dimension.
   */
  lemma ContiguousIffInterval(dims: seq<Dim>, base: int)
    requires WellFormed(dims)
    ensures Contiguous(dims) <==> VisitsInterval(dims, base) && forall j :: 0 <= j < |dims| ==> !Strided(dims[j])
    ensures Reaches(dims) ==> (Contiguous(dims) <==> VisitsInterval(dims, base))
  {
    if Reaches(dims) {
      ReachingIffInterval(dims, base);
    }
    if Contiguous(dims) {
      ContiguousIsNotStrided(dims, |dims| - 1, ElementSize(dims));
    }
  }

  /** The dimension without the indices that its stride cannot reach, if it reaches the first only. */
  function Trim(d: Dim): Dim {
    if d.stride > d.upper - d.lower then d.(upper := d.lower) else d
  }

  function Trimmed(dims: seq<Dim>): seq<Dim> {
    seq(|dims|, i requires 0 <= i < |dims| => Trim(dims[i]))
  }

  lemma TrimFits(inner: Dim, outer: Dim)
    requires ProperDim(inner) && ProperDim(outer) && Fits(inner, outer)
    ensures ProperDim(Trim(inner)) && Fits(Trim(inner), Trim(outer))
  {
    assert (inner.lower - inner.lindex + 1) * inner.size <= (inner.upper - inner.lindex + 1) * inner.size;
  }

  lemma TrimmedIsWellFormed(dims: seq<Dim>)
    requires WellFormed(dims)
    ensures WellFormed(Trimmed(dims)) && Reaches(Trimmed(dims))
  {
    forall i | 0 <= i < |dims|
      ensures ProperDim(Trim(dims[i]))
    {
      assert ProperDim(dims[i]);
    }
    forall i | 1 <= i < |dims|
      ensures FitsAt(Trimmed(dims), i)
    {
      assert ProperDim(dims[i]) && ProperDim(dims[i - 1]) && FitsAt(dims, i);
      TrimFits(dims[i], dims[i - 1]);
    }
  }

  lemma {:induction false} TrimKeepsVisit(dims: seq<Dim>, base: int)
    requires WellFormed(dims) && WellFormed(Trimmed(dims))
    ensures Visit(Trimmed(dims), base) == Visit(dims, base)
    decreases |dims|, 1, 0
  {
    var d := dims[0];
    assert ProperDim(d);
    if |dims| == 1 && d.stride == 1 {
      assert Trim(d) == d;
      assert Trimmed(dims) == dims;
    } else {
      TrimKeepsSweep(dims, base, d.lower - d.lindex);
    }
  }

  lemma {:induction false} TrimKeepsSweep(dims: seq<Dim>, base: int, i: int)
    requires WellFormed(dims) && WellFormed(Trimmed(dims)) && dims[0].lower - dims[0].lindex <= i
    ensures i == dims[0].lower - dims[0].lindex || Trim(dims[0]) == dims[0] ==>
      Sweep(Trimmed(dims), base, i) == Sweep(dims, base, i)
    decreases |dims|, 0, dims[0].upper - dims[0].lindex - i + 1
  {
    var d, next := dims[0], i + dims[0].stride;
    assert ProperDim(d) && ProperDim(Trimmed(dims)[0]);
    if i <= d.upper - d.lindex {
      TrimKeepsTurn(dims, base, i);
      TrimKeepsSweep(dims, base, next);
      if Trim(d) != d {
        assert i == d.lower - d.lindex ==> next > d.upper - d.lindex;
        assert Sweep(dims, base, next) == [] || i != d.lower - d.lindex;
        assert Sweep(Trimmed(dims), base, next) == [] || i != d.lower - d.lindex;
      }
    }
  }

  lemma {:induction false} TrimKeepsTurn(dims: seq<Dim>, base: int, i: int)
    requires WellFormed(dims) && WellFormed(Trimmed(dims))
    ensures Turn(Trimmed(dims), base, i) == Turn(dims, base, i)
    decreases |dims|, 0, -1
  {
    if |dims| > 1 {
      WellFormedTail(dims);
      WellFormedTail(Trimmed(dims));
      assert Trimmed(dims)[1..] == Trimmed(dims[1..]);
      TrimKeepsVisit(dims[1..], base + i * dims[0].size);
    }
  }

  /** So a section visits an interval exactly when it is contiguous with its bounds trimmed. */
  lemma IntervalIffTrimmedContiguous(dims: seq<Dim>, base: int)
    requires WellFormed(dims)
    ensures WellFormed(Trimmed(dims))
    ensures VisitsInterval(dims, base) <==> Contiguous(Trimmed(dims))
  {
    TrimmedIsWellFormed(dims);
    TrimKeepsVisit(dims, base);
    ReachingIffInterval(Trimmed(dims), base);
  }

  /** With such a stride the answer is no although the section is a single element. */
  lemma OverlongStrideIsMisjudged()
    ensures var dims := [Dim(4, 0, 0, 1, 2)];
            && WellFormed(dims) && !Reaches(dims) && !Contiguous(dims) && Visit(dims, 0) == Interval(0, 4)
            && Contiguous(Trimmed(dims))
  {
    var d := Dim(4, 0, 0, 1, 2);
    var dims := [d];
    assert ProperDim(d);
    assert Sweep(dims, 0, 0) == Turn(dims, 0, 0) + Sweep(dims, 0, 2);
    assert Sweep(dims, 0, 2) == [];
  }
}
