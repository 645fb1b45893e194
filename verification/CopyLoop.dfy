/**
 * send_noncontiguous_pointer_data: one loop drives a source and a destination cursor whose
 * contiguous ranges may have different sizes.
 */
module CopyLoop {
  import opened Memory
  import opened Lattice
  import opened SectionIterator

  class Buffer {
    var bytes: Mem

    constructor (bytes: Mem)
      ensures this.bytes == bytes
    {
      this.bytes := bytes;
    }
  }

  lemma {:induction false} FlatLength(digits: seq<Digit>, init: int, len: nat, k: nat)
    requires Counting(digits)
    ensures |Flat(digits, init, len, k)| == k * len
    decreases k
  {
    if k > 0 {
      FlatLength(digits, init, len, k - 1);
    }
  }

  lemma {:induction false} FlatPrefix(digits: seq<Digit>, init: int, len: nat, k: nat, max: nat)
    requires Counting(digits) && k <= max
    ensures Flat(digits, init, len, k) <= Flat(digits, init, len, max)
    decreases max - k
  {
    if k < max {
      FlatPrefix(digits, init, len, k, max - 1);
    }
  }

  /** s are the bytes of the iterator, or without one those of an area that begins at disp. */
  ghost predicate Covers(rng: CeanReadRanges?, disp: int, len: nat, s: seq<int>) {
    if rng == null then s == Interval(disp, |s|)
    else Counting(rng.dim) && rng.rangeSize == len && s == rng.Bytes(rng.rangeMaxNumber)
  }

  /** The iterator has fetched that many bytes. */
  ghost predicate Fetched(rng: CeanReadRanges, len: nat, fetched: nat)
    reads rng
  {
    rng.Valid() && fetched == rng.currentNumber * len
  }

  /** The next range of an iterator. */
  method FetchRange(rng: CeanReadRanges, len: nat, ghost s: seq<int>, ghost fetched: nat)
    returns (more: bool, offset: int)
    requires len >= 1 && Covers(rng, 0, len, s) && Fetched(rng, len, fetched)
    modifies rng
    ensures more == (fetched < |s|)
    ensures more ==> Fetched(rng, len, fetched + len) && Run(s, fetched, len, offset)
    ensures !more ==> rng.currentNumber == 0
  {
    ghost var before := rng.currentNumber;
    FlatLength(rng.dim, rng.initOffset, len, before);
    FlatLength(rng.dim, rng.initOffset, len, rng.rangeMaxNumber);
    RangesLeft(before, rng.rangeMaxNumber, len);
    more, offset := rng.GetNextRange();
    if more {
      FlatPrefix(rng.dim, rng.initOffset, len, before + 1, rng.rangeMaxNumber);
      FlatLength(rng.dim, rng.initOffset, len, before + 1);
      assert rng.Bytes(before + 1) <= s;
      assert forall i :: fetched <= i < fetched + len ==> s[i] == rng.Bytes(before + 1)[i];
    }
  }

  lemma RangesLeft(k: nat, max: nat, len: nat)
    requires k <= max && len >= 1
    ensures k * len < max * len <==> k < max
    ensures (k + 1) * len == k * len + len
  {
    if k < max {
      MultipleTooBig(max - k, len);
      assert max * len == k * len + (max - k) * len;
    }
  }

  // -------------------------------------------------------------- delivery

  /** Memory after the first n bytes have been stored one by one. */
  function Sent(m0: Mem, to: int, d: seq<int>, src: Mem, from: int, s: seq<int>, n: nat): Mem
    requires n <= |d| && n <= |s|
    decreases n
  {
    if n == 0 then m0 else
      var before, place, byte := Sent(m0, to, d, src, from, s, n - 1), to + d[n - 1], src(from + s[n - 1]);
      a => if a == place then byte else before(a)
  }

  /** Address a receives one of the first n bytes. */
  ghost predicate Receives(to: int, d: seq<int>, n: nat, a: int)
    requires n <= |d|
  {
    exists k :: 0 <= k < n && to + d[k] == a
  }

  /** The first n source bytes have arrived at their places and nothing else has changed. */
  ghost predicate Delivered(m0: Mem, m: Mem, to: int, d: seq<int>, src: Mem, from: int, s: seq<int>, n: nat)
    requires n <= |d| && n <= |s|
  {
    && (forall k :: 0 <= k < n ==> m(to + d[k]) == src(from + s[k]))
    && (forall a {:trigger Receives(to, d, n, a)} :: m(a) == m0(a) || Receives(to, d, n, a))
  }

  /** Bytes that go to the same place are equal. */
  ghost predicate Consistent(d: seq<int>, src: Mem, from: int, s: seq<int>, n: nat)
    requires n <= |d| && n <= |s|
  {
    forall i, j :: 0 <= i < n && 0 <= j < n && d[i] == d[j] ==> src(from + s[i]) == src(from + s[j])
  }

  /** What one address holds: the last byte sent to it. */
  lemma {:induction false} SentByte(m0: Mem, to: int, d: seq<int>, src: Mem, from: int, s: seq<int>, n: nat, a: int)
    returns (k: int)
    requires n <= |d| && n <= |s|
    ensures if Receives(to, d, n, a)
            then 0 <= k < n && to + d[k] == a && Sent(m0, to, d, src, from, s, n)(a) == src(from + s[k])
            else Sent(m0, to, d, src, from, s, n)(a) == m0(a)
    decreases n
  {
    k := -1;
    if n > 0 {
      if a == to + d[n - 1] {
        k := n - 1;
      } else {
        k := SentByte(m0, to, d, src, from, s, n - 1, a);
        if Receives(to, d, n, a) {
          var j :| 0 <= j < n && to + d[j] == a;
          assert j < n - 1;
        }
      }
    }
  }

  lemma SentArrives(m0: Mem, m: Mem, to: int, d: seq<int>, src: Mem, from: int, s: seq<int>, n: nat, k: nat)
    requires k < n <= |d| && n <= |s| && SameBytes(m, Sent(m0, to, d, src, from, s, n))
    requires Consistent(d, src, from, s, n)
    ensures m(to + d[k]) == src(from + s[k])
  {
    hide Sent;
    var j := SentByte(m0, to, d, src, from, s, n, to + d[k]);
    assert Receives(to, d, n, to + d[k]);
    assert m(to + d[k]) == Sent(m0, to, d, src, from, s, n)(to + d[k]);
  }

  lemma NothingElseSent(m0: Mem, m: Mem, to: int, d: seq<int>, src: Mem, from: int, s: seq<int>, n: nat, a: int)
    requires n <= |d| && n <= |s| && SameBytes(m, Sent(m0, to, d, src, from, s, n))
    ensures m(a) == m0(a) || Receives(to, d, n, a)
  {
    hide Sent, Receives;
    var j := SentByte(m0, to, d, src, from, s, n, a);
    assert m(a) == Sent(m0, to, d, src, from, s, n)(a);
  }

  /** Every byte ends up at its place exactly when no two different ones go to the same place. */
  lemma DeliveredIffConsistent(m0: Mem, m: Mem, to: int, d: seq<int>, src: Mem, from: int, s: seq<int>, n: nat)
    requires n <= |d| && n <= |s| && SameBytes(m, Sent(m0, to, d, src, from, s, n))
    ensures Delivered(m0, m, to, d, src, from, s, n) <==> Consistent(d, src, from, s, n)
  {
    hide Sent, SameBytes, Receives;
    if Consistent(d, src, from, s, n) {
      forall k | 0 <= k < n
        ensures m(to + d[k]) == src(from + s[k])
      {
        SentArrives(m0, m, to, d, src, from, s, n, k);
      }
      forall a
        ensures m(a) == m0(a) || Receives(to, d, n, a)
      {
        NothingElseSent(m0, m, to, d, src, from, s, n, a);
      }
    }
  }

  /** Positions n .. n + len of s are the addresses from off on. */
  predicate Run(s: seq<int>, n: nat, len: nat, off: int) {
    n + len <= |s| && forall i :: n <= i < n + len ==> s[i] == off + (i - n)
  }

  lemma SentStep(m0: Mem, to: int, d: seq<int>, src: Mem, from: int, s: seq<int>, n: nat, a: int)
    requires n < |d| && n < |s|
    ensures Sent(m0, to, d, src, from, s, n + 1)(a)
         == if a == to + d[n] then src(from + s[n]) else Sent(m0, to, d, src, from, s, n)(a)
  {
  }

  /** Copying a chunk stores its bytes one by one. */
  lemma {:induction false} ChunkSent(
    m0: Mem, to: int, d: seq<int>, src: Mem, from: int, s: seq<int>, n: nat, chunk: nat, offD: int, offS: int, a: int
  )
    requires Run(d, n, chunk, offD) && Run(s, n, chunk, offS)
    ensures Sent(m0, to, d, src, from, s, n + chunk)(a)
         == if to + offD <= a < to + offD + chunk then src(from + offS + (a - (to + offD)))
            else Sent(m0, to, d, src, from, s, n)(a)
    decreases chunk
  {
    hide Sent;
    if chunk > 0 {
      var last := n + chunk - 1;
      assert d[last] == offD + (chunk - 1) && s[last] == offS + (chunk - 1);
      ChunkSent(m0, to, d, src, from, s, n, chunk - 1, offD, offS, a);
      SentStep(m0, to, d, src, from, s, last, a);
    }
  }

  /** One call of BufferCopy or BufferWrite. */
  method TransferChunk(dst: Buffer, ghost m0: Mem, to: int, ghost d: seq<int>, src: Mem, from: int, ghost s: seq<int>,
                       ghost n: nat, chunk: nat, offD: int, offS: int)
    requires Run(d, n, chunk, offD) && Run(s, n, chunk, offS)
    requires SameBytes(dst.bytes, Sent(m0, to, d, src, from, s, n))
    modifies dst
    ensures SameBytes(dst.bytes, Sent(m0, to, d, src, from, s, n + chunk))
  {
    hide Sent;
    ghost var before := dst.bytes;
    dst.bytes := Copy(dst.bytes, to + offD, src, from + offS, chunk);
    forall a
      ensures dst.bytes(a) == Sent(m0, to, d, src, from, s, n + chunk)(a)
    {
      assert before(a) == Sent(m0, to, d, src, from, s, n)(a);
      ChunkSent(m0, to, d, src, from, s, n, chunk, offD, offS, a);
    }
  }

  // --------------------------------------------------------------- cursors

  ghost predicate Multiple(x: int, c: nat) {
    exists q: nat :: x == q * c
  }

  lemma MultipleIffDivides(x: nat, c: nat)
    requires c >= 1
    ensures Multiple(x, c) <==> x % c == 0
  {
    var rest := x % c;
    assert x == (x / c) * c + rest;
    if Multiple(x, c) {
      var q: nat :| x == q * c;
      assert (q - x / c) * c == rest;
      if q > x / c {
        MultipleTooBig(q - x / c, c);
      } else if q < x / c {
        MultipleTooBig(x / c - q, c);
      }
    }
  }

  lemma MultipleLess(x: int, c: nat)
    requires Multiple(x, c) && x > 0
    ensures x >= c && Multiple(x - c, c)
  {
    var q: nat :| x == q * c;
    if q > 0 {
      MultipleTooBig(q, c);
      assert x - c == (q - 1) * c;
    }
  }

  lemma MultipleMore(x: int, c: nat)
    requires Multiple(x, c)
    ensures Multiple(x + c, c)
  {
    var q: nat :| x == q * c;
    assert x + c == (q + 1) * c;
  }

  /** After position n a range has left bytes to go, the chunk before it being at off. */
  ghost predicate Ahead(s: seq<int>, n: nat, left: int, off: int, chunk: nat) {
    left >= 0 && Multiple(left, chunk) && Run(s, n, left, off + chunk)
  }

  /** In an area n bytes are done; left counts down from its length and may pass zero. */
  ghost predicate Along(s: seq<int>, disp: int, len: nat, n: nat, left: int, off: int, chunk: nat) {
    n <= |s| && Multiple(|s| - n, chunk) && if n == 0 then left == 0 else left == len - n && off + chunk == disp + n
  }

  ghost predicate Standing(rng: CeanReadRanges?, disp: int, len: nat, s: seq<int>, n: nat, left: int, off: int, chunk: nat)
    reads rng
  {
    if rng != null then Ahead(s, n, left, off, chunk) && Fetched(rng, len, n + left)
    else Along(s, disp, len, n, left, off, chunk)
  }

  lemma FirstChunk(s: seq<int>, n: nat, len: nat, off: int, chunk: nat)
    requires Run(s, n, len, off) && 0 < chunk <= len
    ensures Run(s, n, chunk, off)
    ensures Multiple(len, chunk) ==> Ahead(s, n + chunk, len - chunk, off, chunk)
  {
    if Multiple(len, chunk) {
      MultipleLess(len, chunk);
    }
  }

  lemma NextChunk(s: seq<int>, n: nat, left: int, off: int, chunk: nat)
    requires Ahead(s, n, left, off, chunk) && left > 0
    ensures Run(s, n, chunk, off + chunk) && Ahead(s, n + chunk, left - chunk, off + chunk, chunk)
  {
    MultipleLess(left, chunk);
  }

  lemma ChunkAlong(s: seq<int>, disp: int, len: nat, n: nat, chunk: nat)
    requires s == Interval(disp, |s|) && n < |s| && Multiple(|s| - n, chunk)
    ensures Run(s, n, chunk, disp + n) && Along(s, disp, len, n + chunk, len - n - chunk, disp + n, chunk)
    ensures Standing(null, disp, len, s, n + chunk, len - n - chunk, disp + n, chunk)
  {
    MultipleLess(|s| - n, chunk);
  }

  /** An area is used up when the bytes it stands for are, to the cursor that counts its length. */
  predicate EndsInTime(rng: CeanReadRanges?, len: nat, s: seq<int>, n: nat) {
    rng == null && n > 0 ==> (n < |s| <==> n != len)
  }

  /**
   * One round of a cursor: a new range if the last one is used up, the next chunk of it
   * otherwise; an area is used once.
   */
  method Advance(rng: CeanReadRanges?, disp: int, len: nat, chunk: nat, first: bool, left: int, off: int,
                 ghost s: seq<int>, ghost n: nat)
    returns (more: bool, left': int, off': int)
    requires 1 <= chunk <= len && Covers(rng, disp, len, s) && Standing(rng, disp, len, s, n, left, off, chunk)
    requires EndsInTime(rng, len, s, n) && (rng == null && left == 0 ==> first == (n < |s|))
    modifies rng
    ensures more == (n < |s|)
    ensures more ==> Run(s, n, chunk, off')
    ensures more && (rng == null || Multiple(len, chunk)) ==> Standing(rng, disp, len, s, n + chunk, left', off', chunk)
    ensures left' == (if left == 0 then len else left) - chunk
    ensures !more && rng != null ==> rng.currentNumber == 0
  {
    if left == 0 {
      left' := len - chunk;
      if rng != null {
        more, off' := FetchRange(rng, len, s, n);
        if more {
          FirstChunk(s, n, len, off', chunk);
        }
      } else if first {
        more, off' := true, disp;
        ChunkAlong(s, disp, len, n, chunk);
      } else {
        more, off' := false, 0;
      }
    } else {
      more, off', left' := true, off + chunk, left - chunk;
      if rng != null {
        NextChunk(s, n, left, off, chunk);
      } else {
        ChunkAlong(s, disp, len, n, chunk);
      }
    }
  }

  /** The destination's round: its own cursor, or without an into clause the source's place. */
  method AdvanceDst(into: bool, rng: CeanReadRanges?, disp: int, len: nat, chunk: nat, srcLeft: int, srcOff: int,
                    left: int, off: int, ghost d: seq<int>, ghost n: nat)
    returns (more: bool, left': int, off': int)
    requires 1 <= chunk <= len
    requires into ==>
      && Covers(rng, disp, len, d) && Standing(rng, disp, len, d, n, left, off, chunk) && EndsInTime(rng, len, d, n)
      && (rng == null ==> n < |d|)
    requires !into ==> n < |d| && Run(d, n, chunk, srcOff)
    modifies rng
    ensures more == (n < |d|)
    ensures more ==> Run(d, n, chunk, off')
    ensures more && into && (rng == null || Multiple(len, chunk)) ==> Standing(rng, disp, len, d, n + chunk, left', off', chunk)
    ensures !into ==> left' == srcLeft && off' == srcOff
  {
    if into {
      more, left', off' := Advance(rng, disp, len, chunk, true, left, off, d, n);
    } else {
      more, left', off' := true, srcLeft, srcOff;
    }
  }

  function Min(a: nat, b: nat): nat {
    if a < b then a else b
  }

  /** Where both cursors stand after n bytes have been sent. */
  datatype Cursors = Cursors(srcLeft: int, srcOff: int, dstLeft: int, dstOff: int)

  /** What both cursors range over. */
  datatype Transfer = Transfer(
    into: bool, rngSrc: CeanReadRanges?, rngDst: CeanReadRanges?,
    lengthSrc: nat, lengthDst: nat, cpuDisp: int, disp: int)
  {
    function Chunk(): nat {
      Min(lengthSrc, lengthDst)
    }
  }

  ghost predicate At(t: Transfer, c: Cursors, s: seq<int>, d: seq<int>, n: nat)
    reads t.rngSrc, t.rngDst
  {
    && Standing(t.rngSrc, t.cpuDisp, t.lengthSrc, s, n, c.srcLeft, c.srcOff, t.Chunk())
    && (t.into && n < |s| ==> Standing(t.rngDst, t.disp, t.lengthDst, d, n, c.dstLeft, c.dstOff, t.Chunk()))
    && (!t.into ==> c.srcLeft == c.dstLeft == 0)
    && Multiple(n, t.Chunk())
  }

  /** A source area either ends with s or is never found to end; a destination area holds s. */
  ghost predicate Fitting(t: Transfer, s: seq<int>, d: seq<int>) {
    && t.lengthSrc >= 1 && t.lengthDst >= 1
    && (t.rngDst != null ==> t.rngDst != t.rngSrc)
    && Covers(t.rngSrc, t.cpuDisp, t.lengthSrc, s) && (t.into ==> Covers(t.rngDst, t.disp, t.lengthDst, d))
    && (t.rngSrc != null && |s| > 0 ==> Multiple(t.lengthSrc, t.Chunk()))
    && (t.into && t.rngDst != null && |d| > 0 ==> Multiple(t.lengthDst, t.Chunk()) || |s| <= t.Chunk())
    && (t.rngSrc == null ==>
          && |s| > 0 && Multiple(|s|, t.Chunk())
          && (t.lengthSrc == |s| || (!Multiple(t.lengthSrc, t.Chunk()) && |d| < |s|)))
    && (t.into && t.rngDst == null ==> |d| == |s| <= t.lengthDst && Multiple(|d|, t.Chunk()))
    && (!t.into ==> d == s && t.lengthSrc == t.lengthDst)
  }

  lemma AtStart(t: Transfer, s: seq<int>, d: seq<int>)
    requires Fitting(t, s, d)
    requires t.rngSrc != null ==> Fetched(t.rngSrc, t.lengthSrc, 0)
    requires t.into && t.rngDst != null ==> Fetched(t.rngDst, t.lengthDst, 0)
    ensures At(t, Cursors(0, 0, 0, 0), s, d, 0)
  {
    assert 0 == 0 * t.Chunk();
  }

  lemma SourceEndsInTime(t: Transfer, c: Cursors, s: seq<int>, d: seq<int>, n: nat)
    requires Fitting(t, s, d) && At(t, c, s, d, n) && n <= |d|
    ensures EndsInTime(t.rngSrc, t.lengthSrc, s, n)
    ensures t.rngSrc == null && c.srcLeft == 0 ==> (n == 0 <==> n < |s|)
  {
  }

  /** One round of the loop, up to the transfer. */
  method Round(t: Transfer, first: bool, c: Cursors, ghost s: seq<int>, ghost d: seq<int>, ghost n: nat)
    returns (srcMore: bool, dstMore: bool, c': Cursors)
    requires Fitting(t, s, d) && first == (n == 0) && n <= |d| && At(t, c, s, d, n)
    modifies t.rngSrc, t.rngDst
    ensures srcMore == (n < |s|) && (srcMore ==> dstMore == (n < |d|))
    ensures srcMore && dstMore ==>
      && Run(s, n, t.Chunk(), c'.srcOff) && Run(d, n, t.Chunk(), c'.dstOff)
      && At(t, c', s, d, n + t.Chunk())
    ensures !srcMore && t.rngSrc != null ==> t.rngSrc.currentNumber == 0
  {
    hide Ahead, Along, Fetched, Covers, Run;
    var srcLeft, srcOff, dstLeft, dstOff := 0, 0, 0, 0;
    dstMore := false;
    SourceEndsInTime(t, c, s, d, n);
    srcMore, srcLeft, srcOff := Advance(t.rngSrc, t.cpuDisp, t.lengthSrc, t.Chunk(), first, c.srcLeft, c.srcOff, s, n);
    if srcMore {
      dstMore, dstLeft, dstOff :=
        AdvanceDst(t.into, t.rngDst, t.disp, t.lengthDst, t.Chunk(), srcLeft, srcOff, c.dstLeft, c.dstOff, d, n);
      MultipleMore(n, t.Chunk());
    }
    c' := Cursors(srcLeft, srcOff, dstLeft, dstOff);
  }

  /** The loop: s and d are the bytes the two cursors range over. */
  method SendRanges(t: Transfer, src: Mem, from: int, dst: Buffer, to: int, ghost s: seq<int>, ghost d: seq<int>)
    returns (ok: bool)
    requires Fitting(t, s, d)
    requires t.rngSrc != null ==> Fetched(t.rngSrc, t.lengthSrc, 0)
    requires t.into && t.rngDst != null ==> Fetched(t.rngDst, t.lengthDst, 0)
    modifies dst, t.rngSrc, t.rngDst
    ensures ok == (|s| <= |d|)
    ensures SameBytes(dst.bytes, Sent(old(dst.bytes), to, d, src, from, s, Min(|s|, |d|)))
    ensures ok && t.rngSrc != null ==> t.rngSrc.currentNumber == 0
  {
    hide Fitting, At, Fetched, Sent;
    var sendSize := if t.lengthSrc < t.lengthDst then t.lengthSrc else t.lengthDst;
    var c, dataSent := Cursors(0, 0, 0, 0), 0;
    AtStart(t, s, d);
    ghost var m0 := dst.bytes;
    NothingSent(m0, to, d, src, from, s);
    ghost var n: nat := 0;
    while true
      invariant n <= |s| && n <= |d| && 0 <= dataSent && (dataSent == 0) == (n == 0)
      invariant At(t, c, s, d, n)
      invariant SameBytes(dst.bytes, Sent(m0, to, d, src, from, s, n))
      decreases |s| - n
    {
      FittingLengths(t, s, d);
      var srcMore, dstMore;
      srcMore, dstMore, c := Round(t, dataSent == 0, c, s, d, n);
      if !srcMore {
        return true;
      }
      if !dstMore {
        return false;
      }
      TransferChunk(dst, m0, to, d, src, from, s, n, sendSize, c.dstOff, c.srcOff);
      dataSent := dataSent + t.lengthSrc;
      n := n + sendSize;
    }
  }

  lemma FittingLengths(t: Transfer, s: seq<int>, d: seq<int>)
    requires Fitting(t, s, d)
    ensures t.lengthSrc >= 1 && t.Chunk() >= 1
  {
  }

  lemma NothingSent(m: Mem, to: int, d: seq<int>, src: Mem, from: int, s: seq<int>)
    ensures SameBytes(m, Sent(m, to, d, src, from, s, 0))
  {
  }

  predicate Divides(a: nat, b: nat)
    requires a >= 1
  {
    b % a == 0
  }

  /** cean_ranges_match on the sizes of two ranges. */
  predicate RangesMatch(a: nat, b: nat)
    requires a >= 1 && b >= 1
  {
    Divides(b, a) || Divides(a, b)
  }

  lemma OnlyItselfOrLarger(a: nat, b: nat)
    requires 1 <= a <= b
    ensures Divides(b, a) <==> a == b
  {
  }

  /** Ranges match exactly when the chunk, the smaller of the two, divides both. */
  lemma MatchIffChunkDivides(a: nat, b: nat)
    requires a >= 1 && b >= 1
    ensures RangesMatch(a, b) <==> Divides(Min(a, b), a) && Divides(Min(a, b), b)
  {
    hide Divides;
    var lo, hi := Min(a, b), a + b - Min(a, b);
    OnlyItselfOrLarger(lo, hi);
    OnlyItselfOrLarger(lo, lo);
  }

  /** cean_get_transf_size: as many bytes as the iterator's ranges hold. */
  method CeanGetTransfSize(rng: CeanReadRanges) returns (size: int)
    requires rng.Valid()
    ensures size == |rng.Bytes(rng.rangeMaxNumber)|
  {
    FlatLength(rng.dim, rng.initOffset, rng.rangeSize, rng.rangeMaxNumber);
    size := rng.rangeMaxNumber * rng.rangeSize;
  }

  // ---------------------------------------------------------- the transfer

  /** The bytes of an iterator, or without one of an area of the variable's size. */
  ghost function BytesOf(rng: CeanReadRanges?, disp: int, size: nat): seq<int>
    requires rng != null ==> rng.Valid()
    reads rng
  {
    if rng != null then rng.Bytes(rng.rangeMaxNumber) else Interval(disp, size)
  }

  /** The destination's bytes: the source's own offsets, unless there is an into clause. */
  ghost function DstBytes(into: bool, rngDst: CeanReadRanges?, disp: int, size: nat, s: seq<int>): seq<int>
    requires rngDst != null ==> rngDst.Valid()
    reads rngDst
  {
    if !into then s else BytesOf(rngDst, disp, size)
  }

  /** A source area whose size the destination's ranges do not divide: its end is stepped over. */
  predicate Overruns(into: bool, rngSrc: CeanReadRanges?, rngDst: CeanReadRanges?, size: nat) {
    into && rngSrc == null && rngDst != null && 1 <= rngDst.rangeSize < size && !Divides(rngDst.rangeSize, size)
  }

  /** The source bytes the loop sees: those of the source, or past its end as many as the destination holds. */
  ghost function SrcBytes(into: bool, rngSrc: CeanReadRanges?, rngDst: CeanReadRanges?, cpuDisp: int, size: nat): seq<int>
    requires rngSrc != null ==> rngSrc.Valid()
    requires rngDst != null ==> rngDst.Valid()
    reads rngSrc, rngDst
  {
    if Overruns(into, rngSrc, rngDst, size) then Interval(cpuDisp, |rngDst.Bytes(rngDst.rangeMaxNumber)|)
    else BytesOf(rngSrc, cpuDisp, size)
  }

  lemma NothingSentAt(m: Mem, to: int, d: seq<int>, src: Mem, from: int, s: seq<int>, a: int)
    ensures Sent(m, to, d, src, from, s, 0)(a) == m(a)
  {
  }

  /** What has been sent depends on the first n places of both sides. */
  lemma {:induction false} SentPrefix(
    m0: Mem, to: int, d: seq<int>, d': seq<int>, src: Mem, from: int, s: seq<int>, s': seq<int>, n: nat, a: int
  )
    requires n <= |d| && n <= |d'| && n <= |s| && n <= |s'|
    requires forall k :: 0 <= k < n ==> d[k] == d'[k] && s[k] == s'[k]
    ensures Sent(m0, to, d, src, from, s, n)(a) == Sent(m0, to, d', src, from, s', n)(a)
    decreases n
  {
    hide Sent;
    if n == 0 {
      NothingSentAt(m0, to, d, src, from, s, a);
      NothingSentAt(m0, to, d', src, from, s', a);
    } else {
      SentPrefix(m0, to, d, d', src, from, s, s', n - 1, a);
      SentStep(m0, to, d, src, from, s, n - 1, a);
      SentStep(m0, to, d', src, from, s', n - 1, a);
    }
  }

  lemma SameSent(
    m: Mem, m0: Mem, to: int, d: seq<int>, d': seq<int>, src: Mem, from: int, s: seq<int>, s': seq<int>, n: nat
  )
    requires n <= |d| && n <= |d'| && n <= |s| && n <= |s'|
    requires forall k :: 0 <= k < n ==> d[k] == d'[k] && s[k] == s'[k]
    requires SameBytes(m, Sent(m0, to, d, src, from, s, n))
    ensures SameBytes(m, Sent(m0, to, d', src, from, s', n))
  {
    hide Sent;
    forall a
      ensures m(a) == Sent(m0, to, d', src, from, s', n)(a)
    {
      assert m(a) == Sent(m0, to, d, src, from, s, n)(a);
      SentPrefix(m0, to, d, d', src, from, s, s', n, a);
    }
  }

  lemma RangesFill(rng: CeanReadRanges, len: nat, s: seq<int>)
    requires Counting(rng.dim) && len == rng.rangeSize && s == rng.Bytes(rng.rangeMaxNumber) && |s| > 0
    ensures |s| >= len && Multiple(|s|, len)
  {
    FlatLength(rng.dim, rng.initOffset, len, rng.rangeMaxNumber);
    if rng.rangeMaxNumber > 0 {
      MultipleTooBig(rng.rangeMaxNumber, len);
    }
  }

  lemma DividesBoth(a: nat, b: nat)
    requires a >= 1 && b >= 1
    ensures RangesMatch(a, b) ==> Multiple(a, Min(a, b)) && Multiple(b, Min(a, b))
    ensures a <= b ==> (Divides(a, b) <==> Multiple(b, Min(a, b)))
  {
    MatchIffChunkDivides(a, b);
    MultipleIffDivides(a, Min(a, b));
    MultipleIffDivides(b, Min(a, b));
  }

  lemma MultipleOfItself(x: nat)
    ensures Multiple(x, x) && Multiple(0, x)
  {
    assert x == 1 * x && 0 == 0 * x;
  }

  /** The lengths of the two cursors, as the loop computes them. */
  function TransferOf(into: bool, rngSrc: CeanReadRanges?, rngDst: CeanReadRanges?, size: nat, cpuDisp: int, disp: int): Transfer {
    var lengthSrc := if rngSrc != null then rngSrc.rangeSize else size;
    Transfer(into, rngSrc, rngDst, lengthSrc,
             if !into then lengthSrc else if rngDst != null then rngDst.rangeSize else size, cpuDisp, disp)
  }

  /** What the runtime has checked before it sends. */
  ghost predicate Sendable(into: bool, rngSrc: CeanReadRanges?, rngDst: CeanReadRanges?, size: nat)
    reads rngSrc, rngDst
  {
    && size >= 1
    && (rngSrc != null ==> rngSrc.Valid() && rngSrc.currentNumber == 0 && rngSrc.rangeSize >= 1)
    && (rngDst != null ==> rngDst.Valid() && rngDst.currentNumber == 0 && rngDst.rangeSize >= 1 && rngDst != rngSrc)
    && (into && rngSrc != null && rngDst != null ==> RangesMatch(rngSrc.rangeSize, rngDst.rangeSize))
    && (into && rngDst == null ==> |BytesOf(rngSrc, 0, size)| <= size)
  }

  lemma OneSource(t: Transfer, rngSrc: CeanReadRanges, size: nat, s: seq<int>, d: seq<int>)
    requires Sendable(t.into, rngSrc, t.rngDst, size)
    requires t == TransferOf(t.into, rngSrc, t.rngDst, size, t.cpuDisp, t.disp)
    requires s == BytesOf(rngSrc, t.cpuDisp, size)
    requires d == if t.into && t.rngDst == null then Interval(t.disp, |s|) else DstBytes(t.into, t.rngDst, t.disp, size, s)
    ensures Fitting(t, s, d)
  {
    MultipleOfItself(t.lengthSrc);
    if |s| > 0 {
      RangesFill(rngSrc, t.lengthSrc, s);
    }
    if t.into && t.rngDst != null {
      DividesBoth(t.lengthSrc, t.lengthDst);
    }
    if t.into && t.rngDst == null && |s| == 0 {
      assert |d| == 0 == 0 * t.Chunk();
    }
  }

  /** A source area: its end is noticed unless the destination's ranges step over it. */
  lemma AreaSource(t: Transfer, size: nat, s: seq<int>, d: seq<int>)
    requires t.rngSrc == null && Sendable(t.into, null, t.rngDst, size)
    requires t == TransferOf(t.into, null, t.rngDst, size, t.cpuDisp, t.disp)
    requires d == DstBytes(t.into, t.rngDst, t.disp, size, Interval(t.cpuDisp, size))
    requires s == Interval(t.cpuDisp, if Overruns(t.into, null, t.rngDst, size) then |d| + t.Chunk() else size)
    ensures Fitting(t, s, d)
  {
    MultipleOfItself(size);
    if t.into && t.rngDst != null {
      DividesBoth(t.lengthDst, size);
      MultipleOfItself(t.lengthDst);
      MultipleOfItself(t.Chunk());
      if Overruns(t.into, null, t.rngDst, size) {
        if |d| > 0 {
          RangesFill(t.rngDst, t.lengthDst, d);
        }
        MultipleMore(|d|, t.Chunk());
      }
    }
  }

  /**
   * send_noncontiguous_pointer_data: stores the source's bytes one by one at the destination's
   * places, and fails exactly if those are too few or their ranges step over the source's end.
   */
  method SendNoncontiguous(rngSrc: CeanReadRanges?, rngDst: CeanReadRanges?, into: bool, size: nat,
                           cpuDisp: int, disp: int, src: Mem, from: int, dst: Buffer, to: int)
    returns (ok: bool)
    requires Sendable(into, rngSrc, rngDst, size)
    modifies dst, rngSrc, rngDst
    ensures var s := old(SrcBytes(into, rngSrc, rngDst, cpuDisp, size));
      var d := old(DstBytes(into, rngDst, disp, size, s));
      && ok == (|s| <= |d| && !Overruns(into, rngSrc, rngDst, size))
      && SameBytes(dst.bytes, Sent(old(dst.bytes), to, d, src, from, s, Min(|s|, |d|)))
      && (Delivered(old(dst.bytes), dst.bytes, to, d, src, from, s, Min(|s|, |d|))
          <==> Consistent(d, src, from, s, Min(|s|, |d|)))
    ensures ok && rngSrc != null ==> rngSrc.currentNumber == 0
  {
    hide Sent, Delivered, Consistent, Fitting;
    ghost var s, m0 := SrcBytes(into, rngSrc, rngDst, cpuDisp, size), dst.bytes;
    ghost var d := DstBytes(into, rngDst, disp, size, s);
    var lengthSrc := if rngSrc != null then rngSrc.rangeSize else size;
    var lengthDst := if !into then lengthSrc else if rngDst != null then rngDst.rangeSize else size;
    var t := Transfer(into, rngSrc, rngDst, lengthSrc, lengthDst, cpuDisp, disp);
    ghost var s', d' := s, if into && rngDst == null then Interval(disp, |s|) else d;
    if rngSrc != null {
      OneSource(t, rngSrc, size, s', d');
    } else {
      s' := Interval(cpuDisp, if Overruns(into, null, rngDst, size) then |d| + t.Chunk() else size);
      AreaSource(t, size, s', d');
    }
    ok := SendRanges(t, src, from, dst, to, s', d');
    SameSent(dst.bytes, m0, to, d', d, src, from, s', s, Min(|s|, |d|));
    DeliveredIffConsistent(m0, dst.bytes, to, d, src, from, s, Min(|s|, |d|));
  }
}
