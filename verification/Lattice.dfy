/**
 * Nested strided loops over byte addresses, and the mixed-radix counter that enumerates the
 * same addresses with one index.
 */
module Lattice {

  /** for (i = 0; i < n; i++), moving step bytes each time. */
  datatype Loop = Loop(n: nat, step: int)

  function Interval(a: int, n: nat): (s: seq<int>)
    ensures |s| == n && forall i :: 0 <= i < n ==> s[i] == a + i
  {
    seq(n, i => a + i)
  }

  /** The addresses the loops visit, outermost loop first, len bytes at every innermost turn. */
  function Nest(loops: seq<Loop>, base: int, len: nat): seq<int>
    decreases |loops|, 1, 0
  {
    if |loops| == 0 then Interval(base, len) else Turns(loops, base, len, loops[0].n)
  }

  /** The first k turns of the outermost loop. */
  function Turns(loops: seq<Loop>, base: int, len: nat, k: nat): seq<int>
    requires |loops| > 0
    decreases |loops|, 0, k
  {
    if k == 0 then []
    else Turns(loops, base, len, k - 1) + Nest(loops[1..], base + (k - 1) * loops[0].step, len)
  }

  lemma NestOfNothing(base: int, len: nat)
    ensures Nest([], base, len) == Interval(base, len)
  {
  }

  // -------------------------------------------------- the one-index form

  /** CeanReadDim. */
  datatype Digit = Digit(count: nat, size: int)

  predicate Running(loops: seq<Loop>) {
    forall i :: 0 <= i < |loops| ==> loops[i].n >= 1
  }

  function Total(loops: seq<Loop>): (t: nat)
    ensures Running(loops) ==> t >= 1
  {
    if |loops| == 0 then 1 else
      var rest := Total(loops[1..]);
      if rest >= 1 && loops[0].n >= 1 then
        assert loops[0].n * rest >= 1 by { ProductPositive(loops[0].n, rest); }
        loops[0].n * rest
      else
        0
  }

  lemma ProductPositive(a: nat, b: nat)
    requires a >= 1 && b >= 1
    ensures a * b >= 1
  {
  }

  function Digits(loops: seq<Loop>): seq<Digit> {
    if |loops| == 0 then [] else [Digit(Total(loops[1..]), loops[0].step)] + Digits(loops[1..])
  }

  predicate Counting(digits: seq<Digit>) {
    forall i :: 0 <= i < |digits| ==> digits[i].count >= 1
  }

  /** The offset get_next_range derives from the number of a range. */
  function MixedOffset(digits: seq<Digit>, num: nat): int
    requires Counting(digits)
  {
    if |digits| == 0 then 0
    else (num / digits[0].count) * digits[0].size + MixedOffset(digits[1..], num % digits[0].count)
  }

  /** The bytes of the first k ranges, one after the other. */
  function Flat(digits: seq<Digit>, init: int, len: nat, k: nat): seq<int>
    requires Counting(digits)
  {
    if k == 0 then [] else Flat(digits, init, len, k - 1) + Interval(init + MixedOffset(digits, k - 1), len)
  }

  lemma DigitsCount(loops: seq<Loop>)
    requires Running(loops)
    ensures |Digits(loops)| == |loops| && Counting(Digits(loops))
  {
    if |loops| > 0 {
      DigitsCount(loops[1..]);
    }
  }

  lemma MultipleTooBig(d: int, c: nat)
    requires d >= 1
    ensures d * c >= c
  {
  }

  lemma DivMod(i: nat, c: nat, j: nat)
    requires j < c
    ensures i * c + j >= 0
    ensures (i * c + j) / c == i && (i * c + j) % c == j
  {
    var x := i * c + j;
    var q, r := x / c, x % c;
    assert x == q * c + r && 0 <= r < c;
    assert (q - i) * c == j - r;
    if q > i {
      MultipleTooBig(q - i, c);
    } else if q < i {
      MultipleTooBig(i - q, c);
    }
  }

  lemma OffsetOfTurn(loops: seq<Loop>, i: nat, j: nat, num: nat)
    requires Running(loops) && |loops| > 0 && j < Total(loops[1..]) && num == i * Total(loops[1..]) + j
    ensures Counting(Digits(loops)) && Counting(Digits(loops[1..]))
    ensures MixedOffset(Digits(loops), num) == i * loops[0].step + MixedOffset(Digits(loops[1..]), j)
  {
    DigitsCount(loops);
    DigitsCount(loops[1..]);
    DivMod(i, Total(loops[1..]), j);
    assert Digits(loops)[1..] == Digits(loops[1..]);
  }

  /** num ranges are i full turns of the outermost loop and j ranges of the next one. */
  lemma {:induction false} FlatIsTurns(loops: seq<Loop>, base: int, len: nat, i: nat, j: nat, num: nat)
    requires Running(loops) && |loops| > 0 && j <= Total(loops[1..]) && num == i * Total(loops[1..]) + j
    ensures Counting(Digits(loops)) && Counting(Digits(loops[1..]))
    ensures Flat(Digits(loops), base, len, num)
         == Turns(loops, base, len, i) + Flat(Digits(loops[1..]), base + i * loops[0].step, len, j)
    decreases |loops|, 0, i, j
  {
    hide Nest, MixedOffset, Digits;
    var rest, T := loops[1..], Total(loops[1..]);
    var at := base + i * loops[0].step;
    DigitsCount(loops);
    DigitsCount(rest);
    if j > 0 {
      assert num >= 1 by { assert i * T >= 0; }
      FlatIsTurns(loops, base, len, i, j - 1, num - 1);
      OffsetOfTurn(loops, i, j - 1, num - 1);
    } else if i > 0 {
      assert num == (i - 1) * T + T;
      FlatIsTurns(loops, base, len, i - 1, T, num);
      MixedRadix(rest, base + (i - 1) * loops[0].step, len);
      assert Flat(Digits(rest), at, len, 0) == [];
      assert Turns(loops, base, len, i)
          == Turns(loops, base, len, i - 1) + Nest(rest, base + (i - 1) * loops[0].step, len);
    }
  }

  /** The one-index enumeration visits exactly what the nested loops visit, in the same order. */
  lemma {:induction false} MixedRadix(loops: seq<Loop>, base: int, len: nat)
    requires Running(loops)
    ensures Counting(Digits(loops))
    ensures Flat(Digits(loops), base, len, Total(loops)) == Nest(loops, base, len)
    decreases |loops|, 1
  {
    DigitsCount(loops);
    if |loops| == 0 {
      assert Flat([], base, len, 1) == Flat([], base, len, 0) + Interval(base + 0, len);
    } else {
      FlatIsTurns(loops, base, len, loops[0].n, 0, Total(loops));
    }
  }

  // ------------------------------------------------------ changing the loops

  lemma {:induction false} TurnsCongruence(loops: seq<Loop>, loops': seq<Loop>, base: int, len: nat, len': nat, k: nat)
    requires |loops| > 0 && |loops'| > 0 && loops[0].step == loops'[0].step
    requires forall b :: Nest(loops[1..], b, len) == Nest(loops'[1..], b, len')
    ensures Turns(loops, base, len, k) == Turns(loops', base, len', k)
    decreases k
  {
    if k > 0 {
      TurnsCongruence(loops, loops', base, len, len', k - 1);
    }
  }

  lemma {:induction false} IntervalTurns(len: nat, base: int, k: nat)
    ensures k * len >= 0
    ensures Turns([Loop(k, len)], base, len, k) == Interval(base, k * len)
    ensures forall n :: Turns([Loop(n, len)], base, len, k) == Turns([Loop(k, len)], base, len, k)
    decreases k
  {
    forall n
      ensures Turns([Loop(n, len)], base, len, k) == Turns([Loop(k, len)], base, len, k)
    {
      assert [Loop(n, len)][1..] == [Loop(k, len)][1..];
      TurnsCongruence([Loop(n, len)], [Loop(k, len)], base, len, len, k);
    }
    if k > 0 {
      IntervalTurns(len, base, k - 1);
      assert [Loop(k, len)][1..] == [];
      assert k * len == (k - 1) * len + len;
      assert Turns([Loop(k, len)], base, len, k - 1) == Interval(base, (k - 1) * len);
    }
  }

  /** An innermost loop over adjacent ranges is one longer range. */
  lemma {:induction false} MergeInnermost(loops: seq<Loop>, n: nat, base: int, len: nat)
    ensures n * len >= 0
    ensures Nest(loops + [Loop(n, len)], base, len) == Nest(loops, base, n * len)
    decreases |loops|
  {
    assert n * len >= 0 by { IntervalTurns(len, base, n); }
    var more := loops + [Loop(n, len)];
    if |loops| == 0 {
      assert more == [Loop(n, len)];
      IntervalTurns(len, base, n);
    } else {
      assert more[1..] == loops[1..] + [Loop(n, len)];
      forall b
        ensures Nest(more[1..], b, len) == Nest(loops[1..], b, n * len)
      {
        MergeInnermost(loops[1..], n, b, len);
      }
      TurnsCongruence(more, loops, base, len, n * len, loops[0].n);
    }
  }

  /** A loop of one turn can be left out. */
  lemma {:induction false} DropSingle(loops: seq<Loop>, step: int, base: int, len: nat)
    ensures Nest(loops + [Loop(1, step)], base, len) == Nest(loops, base, len)
    decreases |loops|
  {
    var more := loops + [Loop(1, step)];
    if |loops| == 0 {
      assert more == [Loop(1, step)] && more[1..] == [];
      assert Turns(more, base, len, 1) == Turns(more, base, len, 0) + Nest([], base + 0 * step, len);
    } else {
      assert more[1..] == loops[1..] + [Loop(1, step)];
      forall b
        ensures Nest(more[1..], b, len) == Nest(loops[1..], b, len)
      {
        DropSingle(loops[1..], step, b, len);
      }
      TurnsCongruence(more, loops, base, len, len, loops[0].n);
    }
  }

  // -------------------------------------------------------------- the order

  /** Distance from the first to after the last visited byte. */
  function Span(loops: seq<Loop>, len: nat): int {
    if |loops| == 0 then len else (loops[0].n - 1) * loops[0].step + Span(loops[1..], len)
  }

  /** Every loop steps over all that its inner loops visit. */
  predicate Nested(loops: seq<Loop>, len: nat) {
    |loops| > 0 ==>
      loops[0].n >= 1 && loops[0].step >= Span(loops[1..], len) >= 1 && Nested(loops[1..], len)
  }

  predicate Increasing(s: seq<int>) {
    forall i, j :: 0 <= i < j < |s| ==> s[i] < s[j]
  }

  /** Ascending from lo to the byte before hi. */
  predicate Spread(s: seq<int>, lo: int, hi: int) {
    Increasing(s) && |s| >= 1 && s[0] == lo && s[|s| - 1] == hi - 1
  }

  lemma SpreadIsBetween(s: seq<int>, lo: int, hi: int, i: nat)
    requires Spread(s, lo, hi) && i < |s|
    ensures lo <= s[i] < hi
  {
  }

  lemma Concatenated(s: seq<int>, t: seq<int>, lo: int, mid: int, mid': int, hi: int)
    requires Spread(s, lo, mid) && Spread(t, mid', hi) && mid <= mid'
    ensures Spread(s + t, lo, hi)
  {
    forall i, j | 0 <= i < j < |s + t|
      ensures (s + t)[i] < (s + t)[j]
    {
      if i < |s| {
        SpreadIsBetween(s, lo, mid, i);
      }
      if j >= |s| {
        SpreadIsBetween(t, mid', hi, j - |s|);
      }
    }
  }

  lemma NextTurn(k: nat, step: int)
    requires k >= 1
    ensures (k - 1) * step == (k - 2) * step + step
  {
  }

  lemma {:induction false} TurnsIncrease(loops: seq<Loop>, base: int, len: nat, k: nat)
    requires Nested(loops, len) && |loops| > 0 && len >= 1 && k >= 1
    ensures Spread(Turns(loops, base, len, k), base, base + (k - 1) * loops[0].step + Span(loops[1..], len))
    decreases |loops|, 0, k
  {
    hide Nest, Turns, Spread, Span;
    var step, span := loops[0].step, Span(loops[1..], len);
    var at := base + (k - 1) * step;
    NestIncreases(loops[1..], at, len);
    LastTurn(loops, base, len, k);
    if k > 1 {
      TurnsIncrease(loops, base, len, k - 1);
      NextTurn(k, step);
      Concatenated(Turns(loops, base, len, k - 1), Nest(loops[1..], at, len), base, at - step + span, at, at + span);
    }
  }

  lemma LastTurn(loops: seq<Loop>, base: int, len: nat, k: nat)
    requires |loops| > 0 && k >= 1
    ensures var last := Nest(loops[1..], base + (k - 1) * loops[0].step, len);
      Turns(loops, base, len, k) == if k == 1 then last else Turns(loops, base, len, k - 1) + last
  {
    if k == 1 {
      assert Turns(loops, base, len, 0) == [];
    }
  }

  /** Properly nested loops visit every byte once, in ascending order, from base to base + Span. */
  lemma {:induction false} NestIncreases(loops: seq<Loop>, base: int, len: nat)
    requires Nested(loops, len) && len >= 1
    ensures Spread(Nest(loops, base, len), base, base + Span(loops, len))
    decreases |loops|, 1, 0
  {
    if |loops| > 0 {
      TurnsIncrease(loops, base, len, loops[0].n);
    }
  }

  /** Whatever their steps, running loops begin at base and end with the byte before base + Span. */
  lemma {:induction false} NestEnds(loops: seq<Loop>, base: int, len: nat)
    requires Running(loops) && len >= 1
    ensures var s := Nest(loops, base, len);
      |s| >= 1 && s[0] == base && s[|s| - 1] == base + Span(loops, len) - 1
    decreases |loops|, 1, 0
  {
    if |loops| > 0 {
      TurnsEnd(loops, base, len, loops[0].n);
    }
  }

  lemma {:induction false} TurnsEnd(loops: seq<Loop>, base: int, len: nat, k: nat)
    requires Running(loops) && |loops| > 0 && len >= 1 && k >= 1
    ensures var s := Turns(loops, base, len, k);
      |s| >= 1 && s[0] == base && s[|s| - 1] == base + (k - 1) * loops[0].step + Span(loops[1..], len) - 1
    decreases |loops|, 0, k
  {
    hide Nest, Turns, Span;
    NestEnds(loops[1..], base + (k - 1) * loops[0].step, len);
    LastTurn(loops, base, len, k);
    if k > 1 {
      TurnsEnd(loops, base, len, k - 1);
    }
  }

  // ------------------------------------------------------------ solid loops

  function Count(loops: seq<Loop>, len: nat): nat {
    if |loops| == 0 then len else Product(loops[0].n, Count(loops[1..], len))
  }

  function Product(a: nat, b: nat): (p: nat)
    ensures p == a * b
  {
    assert a * b >= 0 by { if a > 0 { MultipleTooBig(a, b); } }
    a * b
  }

  lemma {:induction false} TurnsCount(loops: seq<Loop>, base: int, len: nat, k: nat)
    requires |loops| > 0
    ensures |Turns(loops, base, len, k)| == k * Count(loops[1..], len)
    decreases |loops|, 0, k
  {
    if k > 0 {
      TurnsCount(loops, base, len, k - 1);
      NestCount(loops[1..], base + (k - 1) * loops[0].step, len);
    }
  }

  lemma {:induction false} NestCount(loops: seq<Loop>, base: int, len: nat)
    ensures |Nest(loops, base, len)| == Count(loops, len)
    decreases |loops|, 1, 0
  {
    if |loops| > 0 {
      TurnsCount(loops, base, len, loops[0].n);
    }
  }

  /** Every loop that turns more than once steps exactly over what its inner loops visit. */
  predicate Solid(loops: seq<Loop>, len: nat) {
    |loops| > 0 ==> (loops[0].n == 1 || loops[0].step == Count(loops[1..], len)) && Solid(loops[1..], len)
  }

  lemma {:induction false} SolidIffCountIsSpan(loops: seq<Loop>, len: nat)
    requires Nested(loops, len) && len >= 1
    ensures 1 <= Count(loops, len) <= Span(loops, len)
    ensures Count(loops, len) == Span(loops, len) <==> Solid(loops, len)
    decreases |loops|
  {
    if |loops| > 0 {
      SolidIffCountIsSpan(loops[1..], len);
      var n, step, c, span := loops[0].n, loops[0].step, Count(loops[1..], len), Span(loops[1..], len);
      assert (n - 1) * step + span - n * c == (n - 1) * (step - c) + (span - c);
      ProductPositive(n, c);
      if n >= 2 && step > c {
        ProductPositive(n - 1, step - c);
      } else {
        assert (n - 1) * (step - c) == 0;
      }
    }
  }

  lemma DenseIsInterval(s: seq<int>, base: int)
    requires Spread(s, base, base + |s|)
    ensures s == Interval(base, |s|)
  {
    forall i | 0 <= i < |s|
      ensures s[i] == base + i
    {
      AtLeast(s, base, i);
      AtMost(s, base + |s|, i);
    }
  }

  lemma AtLeast(s: seq<int>, lo: int, i: nat)
    requires Increasing(s) && i < |s| && lo <= s[0]
    ensures s[i] >= lo + i
    decreases i
  {
    if i > 0 {
      AtLeast(s, lo, i - 1);
    }
  }

  lemma AtMost(s: seq<int>, hi: int, i: nat)
    requires Increasing(s) && i < |s| && s[|s| - 1] < hi
    ensures s[i] <= hi - (|s| - i)
    decreases |s| - i
  {
    if i < |s| - 1 {
      AtMost(s, hi, i + 1);
    }
  }

  /** Nested loops visit an interval exactly when they are solid. */
  lemma IntervalIffSolid(loops: seq<Loop>, base: int, len: nat)
    requires Nested(loops, len) && len >= 1
    ensures Solid(loops, len) ==> Nest(loops, base, len) == Interval(base, Span(loops, len))
    ensures (exists a, n: nat :: Nest(loops, base, len) == Interval(a, n)) <==> Solid(loops, len)
  {
    var s := Nest(loops, base, len);
    NestIncreases(loops, base, len);
    NestCount(loops, base, len);
    SolidIffCountIsSpan(loops, len);
    if Solid(loops, len) {
      DenseIsInterval(s, base);
    } else if a, n: nat :| s == Interval(a, n) {
      assert false;
    }
  }
}
