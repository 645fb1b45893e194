/** Array sections: the plain nested-loop enumerator, and the bytes a section consists of. */
module Sections {
  import opened Lattice

  /** dim_desc; dimensions are listed outermost first, and the last size is the element size. */
  datatype Dim = Dim(size: int, lindex: int, lower: int, upper: int, stride: int) {
    function Extent(): int {
      upper - lower + 1
    }

    function Steps(): int
      requires stride >= 1
    {
      (upper - lower + stride) / stride
    }
  }

  predicate ProperDim(d: Dim) {
    d.size >= 1 && d.lindex <= d.lower <= d.upper && d.stride >= 1
  }

  /** The inner dimension, taken from its lower index up to the section's upper bound, fits. */
  predicate Fits(inner: Dim, outer: Dim) {
    (inner.upper - inner.lindex + 1) * inner.size <= outer.size
  }

  predicate WellFormed(dims: seq<Dim>) {
    && |dims| >= 1
    && (forall i {:trigger ProperDim(dims[i])} :: 0 <= i < |dims| ==> ProperDim(dims[i]))
    && (forall i {:trigger FitsAt(dims, i)} :: 1 <= i < |dims| ==> FitsAt(dims, i))
  }

  predicate FitsAt(dims: seq<Dim>, i: nat)
    requires 1 <= i < |dims|
  {
    Fits(dims[i], dims[i - 1])
  }

  lemma WellFormedTail(dims: seq<Dim>)
    requires WellFormed(dims) && |dims| >= 2
    ensures WellFormed(dims[1..]) && ProperDim(dims[0]) && Fits(dims[1], dims[0])
  {
    var rest := dims[1..];
    forall i | 0 <= i < |rest|
      ensures ProperDim(rest[i])
    {
      assert ProperDim(dims[i + 1]);
    }
    forall i | 1 <= i < |rest|
      ensures FitsAt(rest, i)
    {
      assert FitsAt(dims, i + 1);
    }
    assert ProperDim(dims[0]) && FitsAt(dims, 1);
  }

  lemma StepsBound(d: Dim)
    requires ProperDim(d)
    ensures d.Steps() >= 1
    ensures (d.Steps() - 1) * d.stride <= d.upper - d.lower < d.Steps() * d.stride
    ensures d.stride == 1 ==> d.Steps() == d.Extent()
    ensures d.upper == d.lower ==> d.Steps() == 1
  {
    var x := d.upper - d.lower + d.stride;
    assert x == d.Steps() * d.stride + x % d.stride;
    assert d.Steps() * d.stride == (d.Steps() - 1) * d.stride + d.stride;
    if d.Steps() < 1 {
      NonPositiveMultiple(d.Steps(), d.stride);
    }
  }

  lemma NonPositiveMultiple(a: int, b: nat)
    requires a <= 0
    ensures a * b <= 0
  {
  }

  // ------------------------------------------------- the nested loops

  /** Byte addresses visited by generate_mem_ranges_one_rank, in order. */
  function Visit(dims: seq<Dim>, base: int): seq<int>
    requires WellFormed(dims)
    decreases |dims|, 1, 0
  {
    var d := dims[0];
    assert ProperDim(d);
    if |dims| == 1 && d.stride == 1 then
      assert d.Extent() * d.size >= 0 by { ProductPositive(d.Extent(), d.size); }
      Interval(base + (d.lower - d.lindex) * d.size, d.Extent() * d.size)
    else
      Sweep(dims, base, d.lower - d.lindex)
  }

  /** The turns of the outermost loop from index i on. */
  function Sweep(dims: seq<Dim>, base: int, i: int): seq<int>
    requires WellFormed(dims)
    decreases |dims|, 0, dims[0].upper - dims[0].lindex - i + 1
  {
    assert ProperDim(dims[0]);
    if i > dims[0].upper - dims[0].lindex then []
    else Turn(dims, base, i) + Sweep(dims, base, i + dims[0].stride)
  }

  /** What one turn visits: an element, or a section of the inner dimensions. */
  function Turn(dims: seq<Dim>, base: int, i: int): seq<int>
    requires WellFormed(dims)
    decreases |dims|, 0, -1
  {
    assert ProperDim(dims[0]);
    if |dims| == 1 then Interval(base + i * dims[0].size, dims[0].size)
    else (WellFormedTail(dims); Visit(dims[1..], base + i * dims[0].size))
  }

  lemma Associative(s: seq<int>, t: seq<int>, u: seq<int>)
    ensures s + (t + u) == s + t + u
  {
  }

  /** Flattens printed ranges, given by first and last address. */
  function Addresses(ranges: seq<(int, int)>): seq<int> {
    if |ranges| == 0 then []
    else Addresses(ranges[..|ranges| - 1]) + RangeBytes(ranges[|ranges| - 1])
  }

  function RangeBytes(r: (int, int)): seq<int> {
    if r.0 <= r.1 then Interval(r.0, r.1 - r.0 + 1) else []
  }

  /** No printed range could be merged with its successor. */
  predicate Maximal(ranges: seq<(int, int)>) {
    forall i {:trigger GapAfter(ranges, i)} :: 0 <= i < |ranges| - 1 ==> GapAfter(ranges, i)
  }

  predicate GapAfter(ranges: seq<(int, int)>, i: nat)
    requires i < |ranges| - 1
  {
    ranges[i + 1].0 != ranges[i].1 + 1
  }

  lemma MaximalAppend(ranges: seq<(int, int)>, r: (int, int))
    requires Maximal(ranges) && (|ranges| > 0 ==> r.0 != ranges[|ranges| - 1].1 + 1)
    ensures Maximal(ranges + [r])
  {
    forall i | 0 <= i < |ranges|
      ensures GapAfter(ranges + [r], i)
    {
      if i < |ranges| - 1 {
        assert GapAfter(ranges, i);
      }
    }
  }

  lemma MaximalExtend(ranges: seq<(int, int)>, l: int, m: int, r: int)
    requires Maximal(ranges + [(l, m)])
    ensures Maximal(ranges + [(l, r)])
  {
    forall i | 0 <= i < |ranges|
      ensures GapAfter(ranges + [(l, r)], i)
    {
      assert GapAfter(ranges + [(l, m)], i);
    }
  }

  lemma AddressesAppend(ranges: seq<(int, int)>, r: (int, int))
    ensures Addresses(ranges + [r]) == Addresses(ranges) + RangeBytes(r)
  {
    assert (ranges + [r])[..|ranges|] == ranges;
  }

  lemma RangeBytesExtend(l: int, m: int, r: int)
    requires l <= m < r
    ensures RangeBytes((l, r)) == RangeBytes((l, m)) + Interval(m + 1, r - m)
  {
  }

  lemma StartRange(l: int, r: int)
    requires l <= r
    ensures Addresses([(l, r)]) == Interval(l, r - l + 1) && Maximal([(l, r)])
  {
    AddressesAppend([], (l, r));
    assert [] + [(l, r)] == [(l, r)];
  }

  lemma ExtendRange(ranges: seq<(int, int)>, l: int, m: int, r: int)
    requires l <= m < r && Maximal(ranges + [(l, m)])
    ensures Maximal(ranges + [(l, r)])
    ensures Addresses(ranges + [(l, r)]) == Addresses(ranges + [(l, m)]) + Interval(m + 1, r - m)
  {
    MaximalExtend(ranges, l, m, r);
    AddressesAppend(ranges, (l, m));
    AddressesAppend(ranges, (l, r));
    RangeBytesExtend(l, m, r);
  }

  lemma NextRange(ranges: seq<(int, int)>, l: int, r: int)
    requires l <= r && Maximal(ranges) && |ranges| > 0 && l != ranges[|ranges| - 1].1 + 1
    ensures Maximal(ranges + [(l, r)])
    ensures Addresses(ranges + [(l, r)]) == Addresses(ranges) + Interval(l, r - l + 1)
  {
    MaximalAppend(ranges, (l, r));
    AddressesAppend(ranges, (l, r));
  }

  /** last_left and last_right, with the ranges handed to fp so far. */
  class RangePrinter {
    var lastLeft: int
    var lastRight: int
    var printed: seq<(int, int)>
    /** All bytes reported so far, in order. */
    ghost var bytes: seq<int>

    constructor ()
      ensures Valid() && !Started() && bytes == []
    {
      lastLeft, lastRight, printed := -1, -2, [];
      bytes := [];
    }

    predicate Started()
      reads this
    {
      lastLeft != -1
    }

    function All(): seq<(int, int)>
      reads this
    {
      if lastLeft == -1 then printed else printed + [(lastLeft, lastRight)]
    }

    ghost predicate Valid()
      reads this
    {
      bytes == Addresses(All()) && Maximal(All()) && (lastLeft == -1 ==> printed == []) && (lastLeft != -1 ==> 0 <= lastLeft <= lastRight)
    }

    /** Adds [lrange, rrange] to the sequence of bytes, extending the last range when possible. */
    method GenerateOneRange(lrange: int, rrange: int)
      requires Valid() && 0 <= lrange <= rrange
      modifies this
      ensures Valid() && Started()
      ensures bytes == old(bytes) + Interval(lrange, rrange - lrange + 1)
    {
      bytes := bytes + Interval(lrange, rrange - lrange + 1);
      if lastLeft == -1 {
        StartRange(lrange, rrange);
        lastLeft := lrange;
      } else {
        if lrange == lastRight + 1 {
          ExtendRange(printed, lastLeft, lastRight, rrange);
        } else {
          NextRange(printed + [(lastLeft, lastRight)], lrange, rrange);
          printed := printed + [(lastLeft, lastRight)];
          lastLeft := lrange;
        }
      }
      lastRight := rrange;
    }

    method GenerateMemRangesOneRank(base: int, dims: seq<Dim>)
      requires Valid() && WellFormed(dims) && base >= 0
      modifies this
      ensures Valid() && Started()
      ensures bytes == old(bytes) + Visit(dims, base)
      decreases |dims|, 1, 1
    {
      hide Valid, Fits, Turn, Sweep;
      var d := dims[0];
      assert ProperDim(d);
      var i := d.lower - d.lindex;
      if |dims| == 1 && d.stride == 1 {
        NonNegative(i, d.size);
        ProductPositive(d.Extent(), d.size);
        var lrange, length := base + i * d.size, (d.upper - d.lower + 1) * d.size;
        GenerateOneRange(lrange, lrange + length - 1);
      } else {
        GenerateSweep(base, dims);
      }
    }

    /** The loop over the outermost dimension. */
    method GenerateSweep(base: int, dims: seq<Dim>)
      requires Valid() && WellFormed(dims) && base >= 0
      modifies this
      ensures Valid() && Started()
      ensures bytes == old(bytes) + Sweep(dims, base, dims[0].lower - dims[0].lindex)
      decreases |dims|, 1, 0
    {
      hide Valid, Fits, Turn, Visit;
      assert ProperDim(dims[0]);
      var d := dims[0];
      var i := d.lower - d.lindex;
      ghost var todo := Sweep(dims, base, i);
      ghost var all := bytes + todo;
      while i <= d.upper - d.lindex
        invariant i >= 0 && Valid()
        invariant i == d.lower - d.lindex || Started()
        invariant todo == Sweep(dims, base, i) && bytes + todo == all
        decreases d.upper - d.lindex - i
      {
        ghost var before := bytes;
        GenerateTurn(base, dims, i);
        i := i + d.stride;
        Associative(before, Turn(dims, base, i - d.stride), Sweep(dims, base, i));
        todo := Sweep(dims, base, i);
      }
    }

    /** The body of the loop over the outermost dimension. */
    method GenerateTurn(base: int, dims: seq<Dim>, i: nat)
      requires Valid() && WellFormed(dims) && base >= 0
      modifies this
      ensures Valid() && Started()
      ensures bytes == old(bytes) + Turn(dims, base, i)
      decreases |dims|, 0
    {
      hide Valid, Fits, Sweep;
      assert ProperDim(dims[0]);
      NonNegative(i, dims[0].size);
      var at := base + i * dims[0].size;
      if |dims| == 1 {
        GenerateOneRange(at, at + dims[0].size - 1);
      } else {
        WellFormedTail(dims);
        GenerateMemRangesOneRank(at, dims[1..]);
      }
    }
  }

  lemma NonNegative(i: nat, n: nat)
    ensures i * n >= 0
  {
  }

  /** generate_mem_ranges: the ranges printed are maximal and cover the section's bytes in order. */
  method GenerateMemRanges(base: int, dims: seq<Dim>) returns (ranges: seq<(int, int)>)
    requires WellFormed(dims) && base >= 0
    ensures Addresses(ranges) == Visit(dims, base)
    ensures Maximal(ranges)
  {
    var p := new RangePrinter();
    p.GenerateMemRangesOneRank(base, dims);
    ranges := p.printed + [(p.lastLeft, p.lastRight)];
    assert ranges == p.All();
  }
}
