/** The second half of translate_map: the new argument lists, combined entries first. */
module TranslateMap {
  import opened Grouping
  import opened GroupCover

  /** A new map entry: MEMBER_OF is the upper 16 bits of the type, the flags are below. */
  datatype Entry = Entry(base: int, begin: int, size: int, flags: OldType, memberField: nat)

  const ALIGNMENT := 8

  /** FIRST_MAP and TARGET_PARAM are the same bit. */
  const TARGET_PARAM := OldType(false, false, false, false, false, true, false, false, false)

  function CombinedEntry(g: Group): Entry {
    var begin := g.begin - g.begin % ALIGNMENT;
    Entry(g.base, begin, g.end - begin, TARGET_PARAM, 0)
  }

  /** The conversion to short. */
  function Short(x: int): int {
    var y := x % 0x1_0000;
    if y < 0x8000 then y else y - 0x1_0000
  }

  /** member_of: the arithmetic shift extends the sign, the result is a short. */
  function DecodeMember(field: nat): int {
    Short(Short(field) - 1)
  }

  /** The upper 16 bits of (id + 1) << 48. */
  function EncodeMember(id: int): nat {
    (id + 1) % 0x1_0000
  }

  /** An index survives the type word exactly when it is non-negative and fits a short. */
  lemma MemberRoundTrip(id: nat)
    ensures DecodeMember(EncodeMember(id)) == id <==> id < 0x8000
  {
  }

  function NewFlags(st: Grouped, i: nat, target: bool): OldType
    requires Shaped(st, |st.memberOf|) && i < |st.memberOf|
  {
    var ty := if st.isPtr[i] then st.types[i].(to := false, from := false) else st.types[i];
    if st.memberOf[i] == NO_GROUP && target then ty else ty.(firstMap := false)
  }

  /** The loop's state: the entries so far, the next combined entry, where each one was put. */
  datatype Emit = Emit(out: seq<Entry>, nextCid: nat, newId: seq<int>)

  function OldEntry(olds: seq<Old>, st: Grouped, target: bool, i: nat, newId: seq<int>): Entry
    requires i < |olds| && Shaped(st, |olds|) && |newId| == |st.groups|
  {
    var m := st.memberOf[i];
    Entry(olds[i].base, olds[i].begin, olds[i].size, NewFlags(st, i, target),
          if m == NO_GROUP then 0 else EncodeMember(newId[m]))
  }

  function Step(olds: seq<Old>, st: Grouped, target: bool, e: Emit, i: nat): (r: Emit)
    requires i < |olds| && Shaped(st, |olds|) && |e.newId| == |st.groups|
    ensures |r.newId| == |st.groups|
  {
    var c := if st.memberOf[i] == e.nextCid
      then Emit(e.out + [CombinedEntry(st.groups[e.nextCid])], e.nextCid + 1, e.newId[e.nextCid := |e.out|])
      else e;
    c.(out := c.out + [OldEntry(olds, st, target, i, c.newId)])
  }

  /** After k old entries; junk is what combined_to_new_id holds before it is assigned. */
  function EmitUpTo(olds: seq<Old>, st: Grouped, target: bool, junk: seq<int>, k: nat): (r: Emit)
    requires k <= |olds| && Shaped(st, |olds|) && |junk| == |st.groups|
    ensures |r.newId| == |st.groups|
  {
    if k == 0 then Emit([], 0, junk)
    else Step(olds, st, target, EmitUpTo(olds, st, target, junk, k - 1), k - 1)
  }

  /** One round of the loop. */
  method EmitEntry(olds: seq<Old>, st: Grouped, target: bool, e: Emit, i: nat) returns (r: Emit)
    requires i < |olds| && Shaped(st, |olds|) && |e.newId| == |st.groups|
    ensures r == Step(olds, st, target, e, i)
  {
    var out, nextCid, newId := e.out, e.nextCid, e.newId;
    var m := st.memberOf[i];
    if m == nextCid {
      var g := st.groups[m];
      newId := newId[nextCid := |out|];
      nextCid := nextCid + 1;
      var begin: int := g.begin;
      var padding := begin % ALIGNMENT;
      if padding != 0 {
        begin := begin - padding;
      }
      out := out + [Entry(g.base, begin, g.end - begin, TARGET_PARAM, 0)];
    }
    var ty := st.types[i];
    if st.isPtr[i] {
      ty := ty.(to := false, from := false);
    }
    var field := 0;
    if m == NO_GROUP {
      if !target {
        ty := ty.(firstMap := false);
      }
    } else {
      ty := ty.(firstMap := false);
      field := EncodeMember(newId[m]);
    }
    out := out + [Entry(olds[i].base, olds[i].begin, olds[i].size, ty, field)];
    r := Emit(out, nextCid, newId);
  }

  method EmitEntries(olds: seq<Old>, st: Grouped, target: bool, junk: seq<int>) returns (out: seq<Entry>)
    requires Shaped(st, |olds|) && |junk| == |st.groups|
    ensures out == EmitUpTo(olds, st, target, junk, |olds|).out
  {
    hide Step;
    var e := Emit([], 0, junk);
    for i := 0 to |olds|
      invariant |e.newId| == |st.groups| && e == EmitUpTo(olds, st, target, junk, i)
    {
      e := EmitEntry(olds, st, target, e, i);
    }
    out := e.out;
  }

  lemma EmitMore(olds: seq<Old>, st: Grouped, target: bool, junk: seq<int>, k: nat)
    requires k < |olds| && Shaped(st, |olds|) && |junk| == |st.groups|
    ensures EmitUpTo(olds, st, target, junk, k + 1)
         == Step(olds, st, target, EmitUpTo(olds, st, target, junk, k), k)
  {
  }

  /** The new list for the groups of the old one, and the length announced for it. */
  function Translated(olds: seq<Old>, target: bool, junk: seq<int>): seq<Entry>
    requires |junk| == |Groups(olds, |olds|).groups|
  {
    EmitUpTo(olds, Groups(olds, |olds|), target, junk, |olds|).out
  }

  /** translate_map. */
  method Translate(olds: seq<Old>, target: bool, initial: nat -> int)
    returns (newArgNum: nat, out: seq<Entry>)
    ensures var n := |Groups(olds, |olds|).groups|;
      newArgNum == |olds| + n && out == Translated(olds, target, seq(n, i requires 0 <= i => initial(i)))
  {
    var st := FindGroups(olds);
    newArgNum := |olds| + |st.groups|;
    out := EmitEntries(olds, st, target, seq(|st.groups|, i requires 0 <= i => initial(i)));
  }

  // ------------------------------------------------------- where entries go

  /** How many combined entries are placed before and at old entry k. */
  function NextCid(m: seq<int>, k: nat): nat
    requires k <= |m|
  {
    if k == 0 then 0 else
      var c := NextCid(m, k - 1);
      if m[k - 1] == c then c + 1 else c
  }

  /** The position of old entry k in the new list. */
  function Position(m: seq<int>, k: nat): nat
    requires k < |m|
  {
    k + NextCid(m, k + 1)
  }

  lemma {:induction false} CidsOnlyGrow(m: seq<int>, j: nat, k: nat)
    requires j <= k <= |m|
    ensures NextCid(m, j) <= NextCid(m, k)
    decreases k
  {
    if j < k {
      CidsOnlyGrow(m, j, k - 1);
    }
  }

  /** The group of old entry i has its combined entry by the time i is placed. */
  predicate InTime(m: seq<int>, i: nat)
    requires i < |m|
  {
    m[i] < NextCid(m, i + 1)
  }

  /**
   * Old entry i is at its position with base, begin and size unchanged; its member index names
   * the combined entry placed before it, or is junk when there is none yet.
   */
  ghost predicate OldPlaced(olds: seq<Old>, st: Grouped, target: bool, junk: seq<int>, e: Emit, i: nat)
    requires i < |olds| && Shaped(st, |olds|) && |e.newId| == |junk| == |st.groups|
  {
    var m := st.memberOf;
    var p := Position(m, i);
    && p < |e.out|
    && e.out[p].base == olds[i].base && e.out[p].begin == olds[i].begin
    && e.out[p].size == olds[i].size && e.out[p].flags == NewFlags(st, i, target)
    && (if m[i] == NO_GROUP then e.out[p].memberField == 0
        else if InTime(m, i) then
          e.newId[m[i]] < p && e.out[p].memberField == EncodeMember(e.newId[m[i]])
        else e.out[p].memberField == EncodeMember(junk[m[i]]))
  }

  ghost predicate GroupPlaced(st: Grouped, e: Emit, c: nat)
    requires c < |e.newId| == |st.groups|
  {
    0 <= e.newId[c] < |e.out| && e.out[e.newId[c]] == CombinedEntry(st.groups[c])
  }

  ghost predicate Placed(olds: seq<Old>, st: Grouped, target: bool, junk: seq<int>, k: nat, e: Emit)
    requires k <= |olds| && Shaped(st, |olds|)
  {
    && e.nextCid == NextCid(st.memberOf, k) <= |st.groups| == |e.newId| == |junk|
    && |e.out| == k + e.nextCid
    && (forall c :: e.nextCid <= c < |junk| ==> e.newId[c] == junk[c])
    && (forall c :: 0 <= c < e.nextCid ==> GroupPlaced(st, e, c))
    && (forall i :: 0 <= i < k ==> OldPlaced(olds, st, target, junk, e, i))
  }

  /** Entries once placed stay where they are. */
  lemma StaysPlaced(olds: seq<Old>, st: Grouped, target: bool, junk: seq<int>, k: nat, e: Emit, i: nat)
    requires k < |olds| && Shaped(st, |olds|) && Placed(olds, st, target, junk, k, e) && i < k
    ensures OldPlaced(olds, st, target, junk, Step(olds, st, target, e, k), i)
  {
    hide OldEntry, CombinedEntry, NewFlags, EncodeMember;
    assert OldPlaced(olds, st, target, junk, e, i);
    CidsOnlyGrow(st.memberOf, i + 1, k);
  }

  lemma GroupStaysPlaced(olds: seq<Old>, st: Grouped, target: bool, junk: seq<int>, k: nat, e: Emit, c: nat)
    requires k < |olds| && Shaped(st, |olds|) && Placed(olds, st, target, junk, k, e)
    requires c < Step(olds, st, target, e, k).nextCid
    ensures GroupPlaced(st, Step(olds, st, target, e, k), c)
  {
    hide OldEntry, CombinedEntry, NewFlags, EncodeMember, OldPlaced;
    if c < e.nextCid {
      assert GroupPlaced(st, e, c);
    }
  }

  lemma NewlyPlaced(olds: seq<Old>, st: Grouped, target: bool, junk: seq<int>, k: nat, e: Emit)
    requires k < |olds| && Shaped(st, |olds|) && Placed(olds, st, target, junk, k, e)
    ensures OldPlaced(olds, st, target, junk, Step(olds, st, target, e, k), k)
  {
    hide CombinedEntry, NewFlags, EncodeMember, OldPlaced;
    var r := Step(olds, st, target, e, k);
    var m := st.memberOf;
    assert Position(m, k) == |r.out| - 1;
    assert 0 <= m[k] < e.nextCid ==> GroupPlaced(st, e, m[k]);
    NewlyPlacedAt(olds, st, target, junk, k, r);
  }

  lemma NewlyPlacedAt(olds: seq<Old>, st: Grouped, target: bool, junk: seq<int>, k: nat, r: Emit)
    requires k < |olds| && Shaped(st, |olds|) && |r.newId| == |junk| == |st.groups|
    requires var p := Position(st.memberOf, k); var m := st.memberOf[k];
      && p == |r.out| - 1 && r.out[p] == OldEntry(olds, st, target, k, r.newId)
      && (m != NO_GROUP ==> if InTime(st.memberOf, k) then r.newId[m] < p else r.newId[m] == junk[m])
    ensures OldPlaced(olds, st, target, junk, r, k)
  {
    hide NewFlags, EncodeMember, NextCid;
  }

  lemma {:induction false} AllPlaced(olds: seq<Old>, st: Grouped, target: bool, junk: seq<int>, k: nat)
    requires k <= |olds| && Shaped(st, |olds|) && |junk| == |st.groups|
    ensures Placed(olds, st, target, junk, k, EmitUpTo(olds, st, target, junk, k))
    decreases k
  {
    hide Placed, Step, EmitUpTo;
    if k > 0 {
      EmitMore(olds, st, target, junk, k - 1);
      AllPlaced(olds, st, target, junk, k - 1);
      StepKeepsPlaced(olds, st, target, junk, k - 1, EmitUpTo(olds, st, target, junk, k - 1));
    } else {
      NonePlaced(olds, st, target, junk);
    }
  }

  lemma NonePlaced(olds: seq<Old>, st: Grouped, target: bool, junk: seq<int>)
    requires Shaped(st, |olds|) && |junk| == |st.groups|
    ensures Placed(olds, st, target, junk, 0, EmitUpTo(olds, st, target, junk, 0))
  {
    hide OldPlaced, GroupPlaced;
  }

  lemma StepKeepsPlaced(olds: seq<Old>, st: Grouped, target: bool, junk: seq<int>, k: nat, e: Emit)
    requires k < |olds| && Shaped(st, |olds|) && Placed(olds, st, target, junk, k, e)
    ensures Placed(olds, st, target, junk, k + 1, Step(olds, st, target, e, k))
  {
    hide OldPlaced, GroupPlaced, OldEntry, CombinedEntry;
    var r := Step(olds, st, target, e, k);
    forall i | 0 <= i <= k
      ensures OldPlaced(olds, st, target, junk, r, i)
    {
      if i < k {
        StaysPlaced(olds, st, target, junk, k, e, i);
      } else {
        NewlyPlaced(olds, st, target, junk, k, e);
      }
    }
    forall c | 0 <= c < r.nextCid
      ensures GroupPlaced(st, r, c)
    {
      GroupStaysPlaced(olds, st, target, junk, k, e, c);
    }
  }

  // ------------------------------------------------------- creation order

  /** Groups first appear in the order they were created. */
  predicate InOrder(m: seq<int>) {
    forall k :: 0 <= k < |m| && m[k] > 0 ==> m[k] - 1 in m[..k]
  }

  lemma {:induction false} EmittedWereSeen(m: seq<int>, k: nat, c: nat)
    requires k <= |m| && c < NextCid(m, k)
    ensures c in m[..k]
    decreases k
  {
    assert m[..k] == m[..k - 1] + [m[k - 1]];
    if c < NextCid(m, k - 1) {
      EmittedWereSeen(m, k - 1, c);
    }
  }

  lemma {:induction false} SeenAreEmitted(m: seq<int>, k: nat, i: nat)
    requires InOrder(m) && i < k <= |m|
    ensures m[i] < NextCid(m, i + 1) <= NextCid(m, k)
    decreases i
  {
    CidsOnlyGrow(m, i + 1, k);
    CidsOnlyGrow(m, i, i + 1);
    if m[i] > 0 {
      var l :| 0 <= l < i && m[..i][l] == m[i] - 1;
      SeenAreEmitted(m, i, l);
    }
  }

  predicate AllInTime(m: seq<int>) {
    forall i :: 0 <= i < |m| ==> InTime(m, i)
  }

  /** Every entry's group is placed in time exactly when groups first appear in creation order. */
  lemma InTimeIffInOrder(m: seq<int>)
    ensures InOrder(m) <==> AllInTime(m)
  {
    if InOrder(m) {
      forall i | 0 <= i < |m|
        ensures InTime(m, i)
      {
        SeenAreEmitted(m, i + 1, i);
      }
    }
    if AllInTime(m) {
      forall k | 0 <= k < |m| && m[k] > 0
        ensures m[k] - 1 in m[..k]
      {
        assert InTime(m, k);
        if m[k] == NextCid(m, k) {
          EmittedWereSeen(m, k, m[k] - 1);
        } else {
          EmittedWereSeen(m, k, m[k] - 1);
        }
      }
    }
  }

  // ------------------------------------------------------------ the results

  function MemberOf(olds: seq<Old>): (m: seq<int>)
    ensures |m| == |olds|
  {
    Groups(olds, |olds|).memberOf
  }

  lemma {:induction false} PositionsIncrease(m: seq<int>, i: nat, j: nat)
    requires i < j < |m|
    ensures Position(m, i) < Position(m, j)
  {
    CidsOnlyGrow(m, i + 1, j + 1);
  }

  /**
   * The new list holds the old entries in order (see PositionsIncrease), base, begin and size
   * unchanged. TO and FROM go for every entry that a pointee is reached through, ALWAYS and
   * DELETE only when it is a pointee itself, FIRST_MAP for members.
   */
  lemma OldEntriesAreKept(olds: seq<Old>, target: bool, junk: seq<int>, i: nat)
    requires |junk| == |Groups(olds, |olds|).groups| && i < |olds|
    ensures var m := MemberOf(olds);
      var out := Translated(olds, target, junk);
      var p, a, pointed := Position(m, i), olds[i], HasPointee(olds, |olds|, i);
      && |out| == |olds| + NextCid(m, |olds|)
      && p < |out|
      && out[p].base == a.base && out[p].begin == a.begin && out[p].size == a.size
      && out[p].flags == a.ty.(
           to := a.ty.to && !pointed, from := a.ty.from && !pointed,
           always := a.ty.always && !(pointed && a.ty.mapPtr),
           delete := a.ty.delete && !(pointed && a.ty.mapPtr),
           firstMap := a.ty.firstMap && m[i] == NO_GROUP && target)
  {
    hide Groups, EmitUpTo, HasPointee, Position, NextCid;
    var n, st := |olds|, Groups(olds, |olds|);
    AllPlaced(olds, st, target, junk, n);
    assert OldPlaced(olds, st, target, junk, EmitUpTo(olds, st, target, junk, n), i);
    MarksAndFlags(olds, n, i);
  }

  lemma ContainsAligned(g: Group, f: Found)
    requires Covers(g, f)
    ensures var e := CombinedEntry(g);
      e.begin % ALIGNMENT == 0 && e.begin <= f.begin && f.end <= e.begin + e.size
  {
  }

  /**
   * With groups in creation order and the list short enough for the index to fit, the member
   * index of every grouped entry decodes to an earlier combined entry, aligned to 8 bytes, whose
   * range contains what the member brings; an entry outside of all groups names none.
   */
  lemma MembersAreCovered(olds: seq<Old>, target: bool, junk: seq<int>, i: nat)
    requires |junk| == |Groups(olds, |olds|).groups| && i < |olds|
    requires InOrder(MemberOf(olds)) && Position(MemberOf(olds), i) < 0x8000
    ensures var m := MemberOf(olds);
      var out := Translated(olds, target, junk);
      var p := Position(m, i);
      && p < |out|
      && (m[i] == NO_GROUP <==> out[p].memberField == 0)
      && (m[i] != NO_GROUP ==>
            var q := DecodeMember(out[p].memberField);
            && 0 <= q < p
            && out[q] == CombinedEntry(Groups(olds, |olds|).groups[m[i]])
            && out[q].begin % ALIGNMENT == 0
            && out[q].begin <= Part(olds, i).begin
            && Part(olds, i).end <= out[q].begin + out[q].size)
  {
    hide Groups, EmitUpTo, Position, NextCid, CombinedEntry, Part, HasOpener, InOrder, Chained, NewFlags,
      DecodeMember;
    var n, st := |olds|, Groups(olds, |olds|);
    var e := EmitUpTo(olds, st, target, junk, n);
    AllPlaced(olds, st, target, junk, n);
    assert OldPlaced(olds, st, target, junk, e, i);
    InTimeIffInOrder(st.memberOf);
    assert InTime(st.memberOf, i);
    if st.memberOf[i] != NO_GROUP {
      var c := st.memberOf[i];
      CidsOnlyGrow(st.memberOf, i + 1, n);
      assert GroupPlaced(st, e, c);
      MemberRoundTrip(e.newId[c]);
      GroupsArePartition(olds, n);
      assert MemberCovered(olds, st, i);
      ContainsAligned(st.groups[c], Part(olds, i));
    }
  }

  /** The range contains what every member of group id brings. */
  ghost predicate HoldsMembers(olds: seq<Old>, id: int, lo: int, hi: int) {
    forall k: nat {:trigger Part(olds, k)} :: k < |olds| && MemberOf(olds)[k] == id ==>
      lo <= Part(olds, k).begin && Part(olds, k).end <= hi
  }

  /**
   * The combined entry of a group is the least range that contains what its members bring and
   * begins at a multiple of 8; it has the base of its first member, and its only flag is
   * TARGET_PARAM.
   */
  lemma CombinedIsLeast(olds: seq<Old>, id: int)
    requires 0 <= id < |Groups(olds, |olds|).groups|
    ensures var e := CombinedEntry(Groups(olds, |olds|).groups[id]);
      && e.begin % 8 == 0 && HoldsMembers(olds, id, e.begin, e.begin + e.size)
      && (forall lo, hi :: lo % 8 == 0 && HoldsMembers(olds, id, lo, hi) ==> lo <= e.begin && e.begin + e.size <= hi)
      && (forall k: nat :: k < |olds| && MemberOf(olds)[k] == id && IsFirst(MemberOf(olds), k) ==> e.base == olds[k].base)
      && e.memberField == 0
      && e.flags == OldType(false, false, false, false, false, true, false, false, false)
  {
    hide Groups, Part, IsRoot, Chained;
    var st := Groups(olds, |olds|);
    var g, e := st.groups[id], CombinedEntry(st.groups[id]);
    GroupsArePartition(olds, |olds|);
    GroupsAreTight(olds, |olds|);
    assert Tight(olds, st, id);
    forall k: nat | k < |olds| && MemberOf(olds)[k] == id
      ensures e.begin <= Part(olds, k).begin && Part(olds, k).end <= e.begin + e.size
    {
      assert MemberCovered(olds, st, k);
    }
    forall lo, hi | lo % 8 == 0 && HoldsMembers(olds, id, lo, hi)
      ensures lo <= e.begin && e.begin + e.size <= hi
    {
      var k: nat :| k < |st.memberOf| && st.memberOf[k] == id && Part(olds, k).begin == g.begin;
      var l: nat :| l < |st.memberOf| && st.memberOf[l] == id && Part(olds, l).end == g.end;
      AlignedBelow(lo, g.begin);
    }
    forall k: nat | k < |olds| && MemberOf(olds)[k] == id && IsFirst(MemberOf(olds), k)
      ensures e.base == olds[k].base
    {
      FirstHasBase(olds, st, id, k);
    }
  }

  lemma AlignedBelow(lo: int, begin: int)
    requires lo % 8 == 0 && lo <= begin
    ensures lo <= begin - begin % 8
  {
  }

  lemma OneFirst(m: seq<int>, j: nat, k: nat)
    requires j < |m| && k < |m| && m[j] == m[k] && IsFirst(m, j) && IsFirst(m, k)
    ensures j == k
  {
  }

  lemma FirstHasBase(olds: seq<Old>, st: Grouped, id: int, k: nat)
    requires Partition(olds, st, |olds|) && 0 <= id < |st.groups| && k < |olds|
    requires st.memberOf[k] == id && IsFirst(st.memberOf, k)
    ensures st.groups[id].base == olds[k].base
  {
    hide Part, IsRoot, Chained;
    assert HasOpener(olds, st, id);
    var j: nat :| Opened(olds, st, id, j);
    assert MemberCovered(olds, st, j);
    OneFirst(st.memberOf, j, k);
  }

  /** With groups in creation order every group gets its combined entry: the announced length is right. */
  lemma AllGroupsArePlaced(olds: seq<Old>, target: bool, junk: seq<int>)
    requires |junk| == |Groups(olds, |olds|).groups| && InOrder(MemberOf(olds))
    ensures |Translated(olds, target, junk)| == |olds| + |Groups(olds, |olds|).groups|
  {
    hide Groups, EmitUpTo, NextCid, OldPlaced, GroupPlaced, Chained, MemberCovered, InOrder;
    var n, st := |olds|, Groups(olds, |olds|);
    AllPlaced(olds, st, target, junk, n);
    GroupsArePartition(olds, n);
    if |st.groups| > 0 {
      var last := |st.groups| - 1;
      assert HasOpener(olds, st, last);
      var k: nat :| Opened(olds, st, last, k);
      SeenAreEmitted(st.memberOf, n, k);
    }
  }

  /**
   * The new list is determined by the old one, whatever the translation array held before,
   * exactly when groups first appear in creation order.
   */
  lemma DeterminedIffInOrder(olds: seq<Old>, target: bool)
    ensures InOrder(MemberOf(olds)) <==>
      forall junk, junk': seq<int> {:trigger Translated(olds, target, junk), Translated(olds, target, junk')} ::
        |junk| == |junk'| == |Groups(olds, |olds|).groups|
        ==> Translated(olds, target, junk) == Translated(olds, target, junk')
  {
    hide Groups, Translated, InOrder, InTime;
    var n, st := |olds|, Groups(olds, |olds|);
    var m := MemberOf(olds);
    InTimeIffInOrder(m);
    if InOrder(m) {
      forall junk, junk': seq<int> | |junk| == |junk'| == |st.groups|
        ensures Translated(olds, target, junk) == Translated(olds, target, junk')
      {
        SameOutput(olds, st, target, junk, junk', n);
        TranslatedIs(olds, target, junk);
        TranslatedIs(olds, target, junk');
      }
    } else {
      var i :| 0 <= i < n && !InTime(m, i);
      var zeros, ones := seq(|st.groups|, _ => 0), seq(|st.groups|, _ => 1);
      JunkShows(olds, target, zeros, i);
      JunkShows(olds, target, ones, i);
      assert Translated(olds, target, zeros) != Translated(olds, target, ones);
    }
  }

  lemma TranslatedIs(olds: seq<Old>, target: bool, junk: seq<int>)
    requires |junk| == |Groups(olds, |olds|).groups|
    ensures Translated(olds, target, junk) == EmitUpTo(olds, Groups(olds, |olds|), target, junk, |olds|).out
  {
  }

  /** An entry placed before its group's combined entry gets a member index from junk. */
  lemma JunkShows(olds: seq<Old>, target: bool, junk: seq<int>, i: nat)
    requires |junk| == |Groups(olds, |olds|).groups| && i < |olds| && !InTime(MemberOf(olds), i)
    ensures var p := Position(MemberOf(olds), i);
      && MemberOf(olds)[i] != NO_GROUP
      && p < |Translated(olds, target, junk)|
      && Translated(olds, target, junk)[p].memberField == EncodeMember(junk[MemberOf(olds)[i]])
  {
    hide Groups, EmitUpTo, Position, NextCid, EncodeMember, NewFlags, GroupPlaced;
    var n, st := |olds|, Groups(olds, |olds|);
    AllPlaced(olds, st, target, junk, n);
    assert OldPlaced(olds, st, target, junk, EmitUpTo(olds, st, target, junk, n), i);
  }

  ghost predicate SameSoFar(e: Emit, e': Emit) {
    && e.out == e'.out && e.nextCid == e'.nextCid <= |e.newId| == |e'.newId|
    && forall c :: 0 <= c < e.nextCid ==> e.newId[c] == e'.newId[c]
  }

  lemma SameStep(olds: seq<Old>, st: Grouped, target: bool, e: Emit, e': Emit, k: nat)
    requires k < |olds| && Shaped(st, |olds|) && |e.newId| == |st.groups| && SameSoFar(e, e')
    requires st.memberOf[k] <= e.nextCid
    ensures SameSoFar(Step(olds, st, target, e, k), Step(olds, st, target, e', k))
  {
    hide CombinedEntry, EncodeMember, NewFlags;
  }

  lemma NextCidIs(olds: seq<Old>, st: Grouped, target: bool, junk: seq<int>, k: nat)
    requires k < |olds| && Shaped(st, |olds|) && |junk| == |st.groups| && AllInTime(st.memberOf)
    ensures st.memberOf[k] <= EmitUpTo(olds, st, target, junk, k).nextCid
  {
    hide OldPlaced, GroupPlaced;
    AllPlaced(olds, st, target, junk, k);
    assert InTime(st.memberOf, k);
  }

  lemma SameAtStart(olds: seq<Old>, st: Grouped, target: bool, junk: seq<int>, junk': seq<int>)
    requires Shaped(st, |olds|) && |junk| == |junk'| == |st.groups|
    ensures SameSoFar(EmitUpTo(olds, st, target, junk, 0), EmitUpTo(olds, st, target, junk', 0))
  {
  }

  /** As long as entries are in time, junk makes no difference. */
  lemma {:induction false} SameOutput(
    olds: seq<Old>, st: Grouped, target: bool, junk: seq<int>, junk': seq<int>, k: nat
  )
    requires k <= |olds| && Shaped(st, |olds|) && |junk| == |junk'| == |st.groups|
    requires AllInTime(st.memberOf)
    ensures SameSoFar(EmitUpTo(olds, st, target, junk, k), EmitUpTo(olds, st, target, junk', k))
    decreases k
  {
    hide AllInTime, Step, SameSoFar, EmitUpTo;
    if k == 0 {
      SameAtStart(olds, st, target, junk, junk');
    } else {
      SameOutput(olds, st, target, junk, junk', k - 1);
      EmitMore(olds, st, target, junk, k - 1);
      EmitMore(olds, st, target, junk', k - 1);
      NextCidIs(olds, st, target, junk, k - 1);
      SameStep(olds, st, target, EmitUpTo(olds, st, target, junk, k - 1),
        EmitUpTo(olds, st, target, junk', k - 1), k - 1);
    }
  }

  function Plain(base: nat, begin: nat, first: bool): Old {
    Old(base, begin, 8, OldType(true, true, false, false, false, first, false, false, false))
  }

  /** An entry that shares no base with earlier ones, and one whose first such entry is t. */
  lemma PlainStep(olds: seq<Old>, n: nat, t: int)
    requires 0 < n <= |olds| && -1 <= t < n - 1
    requires forall k :: 0 <= k < n ==> !olds[k].ty.mapPtr
    requires Passes(olds, n - 1, if t < 0 then n - 1 else t)
    requires t >= 0 ==> Shared(olds, n - 1, t).begin != 0
    ensures var m, m' := Groups(olds, n - 1).memberOf, Groups(olds, n).memberOf;
      if t < 0 then m' == m + [NO_GROUP]
      else if m[t] == NO_GROUP then m' == m[t := |Groups(olds, n - 1).groups|] + [|Groups(olds, n - 1).groups|]
      else m' == m + [m[t]]
    ensures |Groups(olds, n).groups| == |Groups(olds, n - 1).groups|
      + (if t >= 0 && Groups(olds, n - 1).memberOf[t] == NO_GROUP then 1 else 0)
  {
    hide Scan, Shared, Groups, Join, Passes;
    var before := GroupsStep(olds, n);
    var st := Start(before, olds[n - 1].ty);
    NothingToPass(olds, n - 1);
    ScanJoins(olds, st, n - 1, 0);
    if t >= 0 {
      assert Joins(olds, n - 1, t);
      RootJoinsNone(olds, n - 1, t);
      var u :| Joins(olds, n - 1, u)
        && Groups(olds, n).memberOf == Join(olds, st, n - 1, u, Shared(olds, n - 1, u)).memberOf
        && Groups(olds, n).groups == Join(olds, st, n - 1, u, Shared(olds, n - 1, u)).groups;
      OneJoined(olds, n - 1, t, u);
      JoinEffect(olds, st, n - 1, t, Shared(olds, n - 1, t));
    } else {
      var i := n - 1;
      assert forall u: nat :: !Joins(olds, i, u) by {
        if u: nat :| Joins(olds, i, u) {
          RootJoinsNone(olds, i, u);
        }
      }
    }
  }

  /** Two structures whose members are listed in the opposite order: the index of the first is junk. */
  lemma LaterGroupFirst()
    ensures var olds := [Plain(64, 64, true), Plain(128, 128, true), Plain(128, 136, false), Plain(64, 72, false)];
      MemberOf(olds) == [1, 0, 0, 1] && !InOrder(MemberOf(olds))
  {
    hide Groups;
    var olds := [Plain(64, 64, true), Plain(128, 128, true), Plain(128, 136, false), Plain(64, 72, false)];
    assert Groups(olds, 0) == Grouped([], [], [], []) by { NoEntries(olds); }
    PlainStep(olds, 1, -1);
    PlainStep(olds, 2, -1);
    PlainStep(olds, 3, 1);
    PlainStep(olds, 4, 0);
    assert MemberOf(olds)[..0] == [];
  }

  lemma NoEntries(olds: seq<Old>)
    ensures Groups(olds, 0) == Grouped([], [], [], [])
  {
  }
}
