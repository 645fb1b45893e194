/** The first half of translate_map: which old map entries share a combined entry. */
module Grouping {
  import opened Memory

  /** The bits of tgt_oldmap_type. */
  datatype OldType = OldType(
    to: bool, from: bool, always: bool, delete: bool, mapPtr: bool, firstMap: bool,
    returnPtr: bool, privatePtr: bool, privateVal: bool)

  datatype Old = Old(base: nat, begin: nat, size: nat, ty: OldType)

  datatype Group = Group(numMembers: nat, base: nat, begin: nat, end: nat)

  const NO_GROUP := -1

  /** For each entry its group, whether it is a pointer with a pointee, and its new flags. */
  datatype Grouped = Grouped(
    memberOf: seq<int>, isPtr: seq<bool>, types: seq<OldType>, groups: seq<Group>)

  predicate Shaped(st: Grouped, n: nat) {
    && |st.memberOf| == |st.isPtr| == |st.types| == n
    && forall k :: 0 <= k < n ==> NO_GROUP <= st.memberOf[k] < |st.groups|
  }

  /** What comparing an entry with an earlier one finds: the range it adds, begin 0 for none. */
  datatype Found = Found(begin: nat, end: nat)

  /** The range that entry i brings into a group by sharing its base with entry j. */
  function Shared(olds: seq<Old>, i: nat, j: nat): Found
    requires j < i < |olds|
  {
    var a, b := olds[i], olds[j];
    if a.ty.mapPtr then
      if a.base == b.begin && !b.ty.mapPtr then Found(a.base, a.base + PTR_SIZE) else Found(0, 0)
    else
      if !a.ty.firstMap && a.base == b.base then Found(a.begin, a.begin + a.size) else Found(0, 0)
  }

  /** What the comparison changes for entry j. */
  function Mark(olds: seq<Old>, st: Grouped, i: nat, j: nat): (r: Grouped)
    requires j < i < |olds| && Shaped(st, i + 1)
    ensures Shaped(r, i + 1) && r.memberOf == st.memberOf && r.groups == st.groups
  {
    var a, b := olds[i], olds[j];
    if !(a.ty.mapPtr && a.base == b.begin) then st
    else if !b.ty.mapPtr then st.(isPtr := st.isPtr[j := true])
    else st.(types := st.types[j :=
      st.types[j].(to := false, from := false, always := false, delete := false)])
  }

  function Min(a: nat, b: nat): nat { if b < a then b else a }
  function Max(a: nat, b: nat): nat { if a < b then b else a }

  /** The group that entry j opens. */
  function NewGroup(b: Old): Group {
    if b.ty.mapPtr then Group(1, b.base, b.base, b.base + b.size)
    else Group(1, b.base, b.begin, b.begin + b.size)
  }

  /** Entry i joins the group of entry j, which is opened when there is none. */
  function Join(olds: seq<Old>, st: Grouped, i: nat, j: nat, f: Found): (r: Grouped)
    requires j < i < |olds| && Shaped(st, i + 1)
    ensures Shaped(r, i + 1) && r.types == st.types && r.isPtr == st.isPtr
  {
    var was := if st.memberOf[j] == NO_GROUP then
        st.(memberOf := st.memberOf[j := |st.groups|], groups := st.groups + [NewGroup(olds[j])])
      else st;
    var id := was.memberOf[j];
    var g := was.groups[id];
    var g' := g.(numMembers := g.numMembers + 1, begin := Min(g.begin, f.begin), end := Max(g.end, f.end));
    was.(memberOf := was.memberOf[i := id], groups := was.groups[id := g'])
  }

  /** The inner loop from entry j on. */
  function Scan(olds: seq<Old>, st: Grouped, i: nat, j: nat): (r: Grouped)
    requires j <= i < |olds| && Shaped(st, i + 1)
    ensures Shaped(r, i + 1)
    decreases i - j
  {
    if j == i then st else
      var f := Shared(olds, i, j);
      var marked := Mark(olds, st, i, j);
      if f.begin != 0 then Join(olds, marked, i, j, f) else Scan(olds, marked, i, j + 1)
  }

  function Start(st: Grouped, ty: OldType): Grouped {
    st.(memberOf := st.memberOf + [NO_GROUP], isPtr := st.isPtr + [false], types := st.types + [ty])
  }

  /** The outer loop over the first n entries. */
  function Groups(olds: seq<Old>, n: nat): (r: Grouped)
    requires n <= |olds|
    ensures Shaped(r, n)
  {
    if n == 0 then Grouped([], [], [], []) else
      Scan(olds, Start(Groups(olds, n - 1), olds[n - 1].ty), n - 1, 0)
  }

  // ------------------------------------------------------------- the loops

  /** Adds entry i to the group of entry j. */
  method JoinGroup(olds: seq<Old>, st: Grouped, i: nat, j: nat, newBegin: nat, newEnd: nat)
    returns (r: Grouped)
    requires j < i < |olds| && Shaped(st, i + 1) && st.types[j].mapPtr == olds[j].ty.mapPtr
    ensures r == Join(olds, st, i, j, Found(newBegin, newEnd))
  {
    var memberOf, groups := st.memberOf, st.groups;
    var id: nat;
    var b := olds[j];
    if memberOf[j] == NO_GROUP {
      id := |groups|;
      groups := groups + [if st.types[j].mapPtr then Group(1, b.base, b.base, b.base + b.size)
                          else Group(1, b.base, b.begin, b.begin + b.size)];
      memberOf := memberOf[j := id];
    } else {
      id := memberOf[j];
    }
    var g := groups[id];
    groups := groups[id := Group(g.numMembers + 1, g.base, Min(g.begin, newBegin), Max(g.end, newEnd))];
    memberOf := memberOf[i := id];
    r := Grouped(memberOf, st.isPtr, st.types, groups);
  }

  ghost predicate KeepsMapPtr(olds: seq<Old>, st: Grouped, n: nat) {
    n <= |olds| && n <= |st.types| && forall k :: 0 <= k < n ==> st.types[k].mapPtr == olds[k].ty.mapPtr
  }

  /** One round of the outer loop. */
  method ScanEntry(olds: seq<Old>, before: Grouped, i: nat) returns (r: Grouped)
    requires i < |olds| && before == Groups(olds, i) && KeepsMapPtr(olds, before, i)
    ensures r == Groups(olds, i + 1) && KeepsMapPtr(olds, r, i + 1)
  {
    hide Join;
    r := Grouped(before.memberOf + [NO_GROUP], before.isPtr + [false], before.types + [olds[i].ty], before.groups);
    ghost var st := r;
    var a := olds[i];
    for j := 0 to i
      invariant Shaped(r, i + 1) && KeepsMapPtr(olds, r, i + 1) && r.types[i] == olds[i].ty
      invariant Scan(olds, st, i, 0) == Scan(olds, r, i, j)
    {
      var b := olds[j];
      var newBegin, newEnd := 0, 0;
      ghost var was := r;
      if r.types[i].mapPtr {
        if a.base == b.begin {
          if !r.types[j].mapPtr {
            newBegin, newEnd := a.base, a.base + PTR_SIZE;
            r := r.(isPtr := r.isPtr[j := true]);
          } else {
            r := r.(types := r.types[j :=
              r.types[j].(to := false, from := false, always := false, delete := false)]);
          }
        }
      } else if !r.types[i].firstMap && a.base == b.base {
        newBegin, newEnd := a.begin, a.begin + a.size;
      }
      assert r == Mark(olds, was, i, j);
      assert Shared(olds, i, j) == Found(newBegin, newEnd);
      if newBegin != 0 {
        r := JoinGroup(olds, r, i, j, newBegin, newEnd);
        return;
      }
    }
  }

  method FindGroups(olds: seq<Old>) returns (r: Grouped)
    ensures r == Groups(olds, |olds|)
  {
    hide Scan;
    r := Grouped([], [], [], []);
    for i := 0 to |olds|
      invariant Shaped(r, i) && KeepsMapPtr(olds, r, i) && r == Groups(olds, i)
    {
      r := ScanEntry(olds, r, i);
    }
  }

  // ------------------------------------------------- what the groups are

  /** Entry i shares no base with the entries before j. */
  ghost predicate Passes(olds: seq<Old>, i: nat, j: nat) {
    j <= i < |olds| && forall k {:trigger Shared(olds, i, k)} :: 0 <= k < j ==> Shared(olds, i, k).begin == 0
  }

  /** Entry j is the first one that entry i shares a base with. */
  ghost predicate Joins(olds: seq<Old>, i: nat, j: nat) {
    j < i && Passes(olds, i, j) && Shared(olds, i, j).begin != 0
  }

  ghost predicate IsRoot(olds: seq<Old>, i: nat) {
    Passes(olds, i, i)
  }

  /** Entry i is the pointee of a pointer that is stored where entry j begins. */
  ghost predicate PointsFrom(olds: seq<Old>, i: nat, j: nat) {
    j < i && Passes(olds, i, j) && olds[i].ty.mapPtr && olds[i].base == olds[j].begin
  }

  lemma {:induction false} FirstShared(olds: seq<Old>, i: nat, k: nat) returns (j: nat)
    requires k < i < |olds| && Shared(olds, i, k).begin != 0
    ensures j <= k && Joins(olds, i, j)
  {
    j := 0;
    while Shared(olds, i, j).begin == 0
      invariant j <= k && Passes(olds, i, j)
      decreases k - j
    {
      j := j + 1;
    }
  }

  /** Joining does not look at marks and flags. */
  lemma JoinIgnoresMarks(olds: seq<Old>, st: Grouped, marked: Grouped, i: nat, j: nat, f: Found)
    requires j < i < |olds| && Shaped(st, i + 1) && Shaped(marked, i + 1)
    requires marked.memberOf == st.memberOf && marked.groups == st.groups
    ensures Join(olds, marked, i, j, f).memberOf == Join(olds, st, i, j, f).memberOf
    ensures Join(olds, marked, i, j, f).groups == Join(olds, st, i, j, f).groups
  {
  }

  /** The scan of entry i either joins the first entry it shares a base with, or changes no group. */
  lemma {:induction false} ScanJoins(olds: seq<Old>, st: Grouped, i: nat, j: nat)
    requires j <= i < |olds| && Shaped(st, i + 1) && Passes(olds, i, j)
    ensures var r := Scan(olds, st, i, j);
      || (IsRoot(olds, i) && r.memberOf == st.memberOf && r.groups == st.groups)
      || (exists t :: Joins(olds, i, t)
            && r.memberOf == Join(olds, st, i, t, Shared(olds, i, t)).memberOf
            && r.groups == Join(olds, st, i, t, Shared(olds, i, t)).groups)
    decreases i - j
  {
    hide Shared, Join, Mark;
    if j < i {
      var marked := Mark(olds, st, i, j);
      if Shared(olds, i, j).begin != 0 {
        assert Joins(olds, i, j);
        JoinIgnoresMarks(olds, st, marked, i, j, Shared(olds, i, j));
      } else {
        ScanJoins(olds, marked, i, j + 1);
        forall t: nat | Joins(olds, i, t)
          ensures Join(olds, marked, i, t, Shared(olds, i, t)).memberOf == Join(olds, st, i, t, Shared(olds, i, t)).memberOf
          ensures Join(olds, marked, i, t, Shared(olds, i, t)).groups == Join(olds, st, i, t, Shared(olds, i, t)).groups
        {
          JoinIgnoresMarks(olds, st, marked, i, t, Shared(olds, i, t));
        }
      }
    }
  }

  function Cleared(ty: OldType): OldType {
    ty.(to := false, from := false, always := false, delete := false)
  }

  /** What the scan of entry i changes besides: the marks and flags of entries it points from. */
  lemma {:induction false} ScanMarks(olds: seq<Old>, st: Grouped, i: nat, j: nat, k: nat)
    requires j <= i < |olds| && Shaped(st, i + 1) && Passes(olds, i, j) && k <= i
    ensures var r := Scan(olds, st, i, j);
      var hit := j <= k && PointsFrom(olds, i, k);
      && r.isPtr[k] == (st.isPtr[k] || (hit && !olds[k].ty.mapPtr))
      && r.types[k] == if hit && olds[k].ty.mapPtr then Cleared(st.types[k]) else st.types[k]
    decreases i - j
  {
    if j < i {
      var marked := Mark(olds, st, i, j);
      if Shared(olds, i, j).begin == 0 {
        ScanMarks(olds, marked, i, j + 1, k);
      } else if j < k {
        assert !Passes(olds, i, k);
      }
    }
  }

  /** Whether some entry before n points from entry k. */
  ghost predicate HasPointee(olds: seq<Old>, n: nat, k: nat) {
    exists i :: k < i < n && PointsFrom(olds, i, k)
  }

  /**
   * An entry is marked as a pointer exactly when a later entry is reached through it, and loses
   * its flags exactly when it is itself only the pointee of such a pointer.
   */
  lemma {:induction false} MarksAndFlags(olds: seq<Old>, n: nat, k: nat)
    requires k < n <= |olds|
    ensures var r := Groups(olds, n);
      && r.isPtr[k] == (HasPointee(olds, n, k) && !olds[k].ty.mapPtr)
      && r.types[k] == if HasPointee(olds, n, k) && olds[k].ty.mapPtr then Cleared(olds[k].ty) else olds[k].ty
    decreases n
  {
    hide Scan, Passes, Groups;
    var i := n - 1;
    var before := GroupsStep(olds, n);
    StartAgrees(before, olds[i].ty, i, k);
    assert Passes(olds, i, 0) by { NothingToPass(olds, i); }
    ScanMarks(olds, Start(before, olds[i].ty), i, 0, k);
    if k < i {
      MarksAndFlags(olds, i, k);
    }
  }

  lemma GroupsStep(olds: seq<Old>, n: nat) returns (before: Grouped)
    requires 0 < n <= |olds|
    ensures before == Groups(olds, n - 1) && Shaped(Start(before, olds[n - 1].ty), n)
    ensures Groups(olds, n) == Scan(olds, Start(before, olds[n - 1].ty), n - 1, 0)
  {
    before := Groups(olds, n - 1);
  }

  lemma StartAgrees(st: Grouped, ty: OldType, i: nat, k: nat)
    requires Shaped(st, i) && k <= i
    ensures var r := Start(st, ty);
      && r.isPtr[k] == (if k < i then st.isPtr[k] else false)
      && r.types[k] == (if k < i then st.types[k] else ty)
      && r.memberOf[k] == (if k < i then st.memberOf[k] else NO_GROUP)
  {
  }

  lemma NothingToPass(olds: seq<Old>, i: nat)
    requires i < |olds|
    ensures Passes(olds, i, 0)
  {
  }
}
