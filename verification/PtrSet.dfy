/** The ordered set of host ranges whose order treats overlapping ranges as equal. */
module PtrSet {
  import opened CStrings

  datatype Range = Range(start: int, length: nat) {
    function End(): int { start + length }

    predicate Overlaps(o: Range) { start < o.End() && End() > o.start }
  }

  /** operator< */
  predicate Less(a: Range, b: Range) { a.start < b.start && !a.Overlaps(b) }

  predicate Equal(a: Range, b: Range) { !Less(a, b) && !Less(b, a) }

  /** The probe of a lookup. */
  function Probe(p: int): Range { Range(p, 0) }

  // --------------------------------------------------------- the order

  /** On non-empty ranges, equal means overlapping. */
  lemma EqualIffOverlapping(a: Range, b: Range)
    requires a.length > 0 && b.length > 0
    ensures Equal(a, b) <==> a.Overlaps(b)
    ensures Less(a, b) <==> a.End() <= b.start
  {
  }

  /** A zero-length probe equals exactly the non-empty range that contains its address. */
  lemma ProbeIffInside(r: Range, p: int)
    requires r.length > 0
    ensures Equal(r, Probe(p)) <==> r.start <= p < r.End()
    ensures Less(r, Probe(p)) <==> r.End() <= p
  {
  }

  /** On pairwise disjoint non-empty ranges the order is strict and total. */
  lemma StrictTotalOrder(a: Range, b: Range, c: Range)
    requires a.length > 0 && b.length > 0 && c.length > 0
    ensures !Less(a, a)
    ensures Less(a, b) && Less(b, c) ==> Less(a, c)
    ensures !a.Overlaps(b) ==> Less(a, b) != Less(b, a)
  {
  }

  /** Without disjointness equality is not transitive, so the order is not one a set may use. */
  lemma OverlapIsNotTransitive()
    ensures var a, b, c := Range(0, 2), Range(1, 2), Range(2, 2);
      Equal(a, b) && Equal(b, c) && Less(a, c)
  {
  }

  // ----------------------------------------------------------- the set

  ghost predicate Sorted(s: seq<Range>) {
    && (forall i :: 0 <= i < |s| ==> s[i].length > 0)
    && (forall i, j :: 0 <= i < j < |s| ==> Less(s[i], s[j]))
  }

  /** The first element that is not less than the key. */
  function LowerBound(s: seq<Range>, key: Range): (i: nat)
    ensures i <= |s|
    ensures forall k :: 0 <= k < i ==> Less(s[k], key)
    ensures i < |s| ==> !Less(s[i], key)
  {
    if |s| == 0 || !Less(s[0], key) then 0 else 1 + LowerBound(s[1..], key)
  }

  /** The ordered search: only the lower bound is compared for equality. */
  function Find(s: seq<Range>, key: Range): Option<Range> {
    var i := LowerBound(s, key);
    if i < |s| && !Less(key, s[i]) then Some(s[i]) else None
  }

  /** The set after an insertion, the element at hand and whether it is new. */
  function Insert(s: seq<Range>, r: Range): (seq<Range>, Range, bool) {
    match Find(s, r)
    case Some(e) => (s, e, false)
    case None =>
      var i := LowerBound(s, r);
      (s[..i] + [r] + s[i..], r, true)
  }

  function Erase(s: seq<Range>, p: int): seq<Range> {
    var i := LowerBound(s, Probe(p));
    if i < |s| && !Less(Probe(p), s[i]) then s[..i] + s[i + 1..] else s
  }

  // ------------------------------------------------------ linear searches

  function Elements(s: seq<Range>): set<Range> { set r | r in s }

  predicate Inside(r: Range, p: int) { r.start <= p < r.End() }

  ghost predicate Disjoint(rs: set<Range>) {
    && (forall r :: r in rs ==> r.length > 0)
    && forall r, q :: r in rs && q in rs && r.Overlaps(q) ==> r == q
  }

  lemma SortedIsDisjoint(s: seq<Range>)
    requires Sorted(s)
    ensures Disjoint(Elements(s))
  {
    forall r, q | r in Elements(s) && q in Elements(s) && r.Overlaps(q)
      ensures r == q
    {
      var i :| 0 <= i < |s| && s[i] == r;
      var j :| 0 <= j < |s| && s[j] == q;
    }
  }

  /** A key that is empty, as the probes are, or a range to insert. */
  lemma FindIsSound(s: seq<Range>, key: Range)
    requires Sorted(s)
    ensures match Find(s, key)
      case Some(r) => r in s && Equal(r, key)
      case None => forall r :: r in s ==> !Equal(r, key)
  {
    var i := LowerBound(s, key);
    if Find(s, key).None? {
      forall r | r in s
        ensures !Equal(r, key)
      {
        var k :| 0 <= k < |s| && s[k] == r;
        if i < k {
          assert Less(s[i], s[k]);
        }
      }
    }
  }

  /** The ordered lookup finds the range that contains the address, if and only if there is one. */
  lemma LookupIsLinear(s: seq<Range>, p: int)
    requires Sorted(s)
    ensures match Find(s, Probe(p))
      case Some(r) => r in s && Inside(r, p) && forall q :: q in s && Inside(q, p) ==> q == r
      case None => forall r :: r in s ==> !Inside(r, p)
  {
    FindIsSound(s, Probe(p));
    SortedIsDisjoint(s);
    forall r | r in s
      ensures Equal(r, Probe(p)) <==> Inside(r, p)
    {
      ProbeIffInside(r, p);
    }
    if Find(s, Probe(p)).Some? {
      var r := Find(s, Probe(p)).value;
      forall q | q in s && Inside(q, p)
        ensures q == r
      {
        assert q in Elements(s) && r in Elements(s) && q.Overlaps(r);
      }
    }
  }

  lemma InsertedIsSorted(s: seq<Range>, r: Range)
    requires Sorted(s) && r.length > 0 && Find(s, r).None?
    ensures Sorted(Insert(s, r).0)
  {
    var i := LowerBound(s, r);
    var s' := Insert(s, r).0;
    assert forall k :: 0 <= k < |s'| ==> s'[k] == if k < i then s[k] else if k == i then r else s[k - 1];
    forall k | i <= k < |s|
      ensures Less(r, s[k])
    {
      assert Less(r, s[i]);
      if i < k {
        StrictTotalOrder(r, s[i], s[k]);
      }
    }
  }

  /** Insertion succeeds exactly when nothing overlaps; then it adds the range and nothing else. */
  lemma InsertIffNothingOverlaps(s: seq<Range>, r: Range)
    requires Sorted(s) && r.length > 0
    ensures var (s', e, isNew) := Insert(s, r);
      && Sorted(s')
      && (isNew <==> forall q :: q in s ==> !q.Overlaps(r))
      && (isNew ==> e == r && Elements(s') == Elements(s) + {r})
      && (!isNew ==> s' == s && e in s && e.Overlaps(r))
  {
    FindIsSound(s, r);
    forall q | q in s
      ensures Equal(q, r) <==> q.Overlaps(r)
    {
      EqualIffOverlapping(q, r);
    }
    if Find(s, r).None? {
      InsertedIsSorted(s, r);
      var i := LowerBound(s, r);
      assert s == s[..i] + s[i..];
      assert forall q :: q in Insert(s, r).0 <==> q in s || q == r;
    }
  }

  lemma RemainsSorted(s: seq<Range>, i: nat)
    requires Sorted(s) && i < |s|
    ensures Sorted(s[..i] + s[i + 1..])
  {
    hide Less;
    var s' := s[..i] + s[i + 1..];
    assert forall k :: 0 <= k < |s'| ==> s'[k] == if k < i then s[k] else s[k + 1];
  }

  lemma ElementsAreDifferent(s: seq<Range>, i: nat, k: nat)
    requires Sorted(s) && i < |s| && k < |s| && i != k
    ensures s[i] != s[k]
  {
  }

  lemma RemainingElements(s: seq<Range>, i: nat)
    requires Sorted(s) && i < |s|
    ensures Elements(s[..i] + s[i + 1..]) == Elements(s) - {s[i]}
  {
    hide Sorted;
    var s' := s[..i] + s[i + 1..];
    assert s == s[..i] + [s[i]] + s[i + 1..];
    forall k | 0 <= k < |s'|
      ensures s'[k] != s[i]
    {
      ElementsAreDifferent(s, i, if k < i then k else k + 1);
    }
  }

  /** Removal takes away exactly the range that contains the address. */
  lemma EraseRemovesTheContaining(s: seq<Range>, p: int)
    requires Sorted(s)
    ensures Sorted(Erase(s, p))
    ensures Elements(Erase(s, p)) == set r | r in s && !Inside(r, p)
  {
    hide Sorted, Inside, Less;
    LookupIsLinear(s, p);
    var i := LowerBound(s, Probe(p));
    if i < |s| && !Less(Probe(p), s[i]) {
      RemainsSorted(s, i);
      RemainingElements(s, i);
    }
  }

  // --------------------------------------------------------------- runs

  datatype Op = Add(r: Range) | Remove(p: int)

  function Step(s: seq<Range>, op: Op): seq<Range> {
    match op
    case Add(r) => Insert(s, r).0
    case Remove(p) => Erase(s, p)
  }

  /** The same on an unordered set of ranges, all of them looked at. */
  function StepLinear(rs: set<Range>, op: Op): set<Range> {
    match op
    case Add(r) => if forall q :: q in rs ==> !q.Overlaps(r) then rs + {r} else rs
    case Remove(p) => set r | r in rs && !Inside(r, p)
  }

  function Run(s: seq<Range>, ops: seq<Op>): seq<Range>
    decreases |ops|
  {
    if |ops| == 0 then s else Run(Step(s, ops[0]), ops[1..])
  }

  function RunLinear(rs: set<Range>, ops: seq<Op>): set<Range>
    decreases |ops|
  {
    if |ops| == 0 then rs else RunLinear(StepLinear(rs, ops[0]), ops[1..])
  }

  predicate NonEmpty(ops: seq<Op>) {
    forall op :: op in ops && op.Add? ==> op.r.length > 0
  }

  lemma StepIsLinear(s: seq<Range>, op: Op)
    requires Sorted(s) && (op.Add? ==> op.r.length > 0)
    ensures Sorted(Step(s, op)) && Elements(Step(s, op)) == StepLinear(Elements(s), op)
  {
    match op
    case Add(r) =>
      InsertIffNothingOverlaps(s, r);
    case Remove(p) =>
      EraseRemovesTheContaining(s, p);
  }

  /** Over every run the ordered set holds what the linear searches would hold, and stays sorted. */
  lemma {:induction false} RunIsLinear(s: seq<Range>, ops: seq<Op>)
    requires Sorted(s) && NonEmpty(ops)
    ensures Sorted(Run(s, ops)) && Elements(Run(s, ops)) == RunLinear(Elements(s), ops)
    decreases |ops|
  {
    hide Sorted, Elements, Step, StepLinear;
    if |ops| > 0 {
      assert ops[0] in ops && forall op :: op in ops[1..] ==> op in ops;
      StepIsLinear(s, ops[0]);
      RunIsLinear(Step(s, ops[0]), ops[1..]);
    }
  }

  // ------------------------------------------------------------- the class

  class Engine {
    var ptrSet: seq<Range>

    constructor ()
      ensures ptrSet == [] && Sorted(ptrSet)
    {
      ptrSet := [];
    }

    method FindPtrData(p: int) returns (r: Option<Range>)
      requires Sorted(ptrSet)
      ensures match r
        case Some(q) => q in ptrSet && Inside(q, p)
        case None => forall q :: q in ptrSet ==> !Inside(q, p)
    {
      LookupIsLinear(ptrSet, p);
      r := Find(ptrSet, Probe(p));
    }

    method InsertPtrData(p: int, length: nat) returns (r: Range, isNew: bool)
      requires Sorted(ptrSet) && length > 0
      modifies this
      ensures Sorted(ptrSet) && r in ptrSet
      ensures isNew <==> forall q :: q in old(ptrSet) ==> !q.Overlaps(Range(p, length))
      ensures isNew ==> r == Range(p, length) && Elements(ptrSet) == Elements(old(ptrSet)) + {r}
      ensures !isNew ==> ptrSet == old(ptrSet) && r.Overlaps(Range(p, length))
    {
      InsertIffNothingOverlaps(ptrSet, Range(p, length));
      var inserted := Insert(ptrSet, Range(p, length));
      ptrSet, r, isNew := inserted.0, inserted.1, inserted.2;
      assert r in Elements(ptrSet);
    }

    method RemovePtrData(p: int)
      requires Sorted(ptrSet)
      modifies this
      ensures Sorted(ptrSet)
      ensures Elements(ptrSet) == set r | r in old(ptrSet) && !Inside(r, p)
    {
      EraseRemovesTheContaining(ptrSet, p);
      ptrSet := Erase(ptrSet, p);
    }
  }
}
