/** A data region leaves the mapping table as it found it. */
module TableRestored {
  import opened Memory
  import opened MappingTable
  import opened TargetData

  ghost predicate Positive(t: seq<Entry>) {
    forall i :: 0 <= i < |t| ==> t[i].rc >= 1
  }

  /** The range is mapped, or partly mapped and requested implicitly. */
  predicate Referable(t: seq<Entry>, hp: int, size: nat, implicit: bool) {
    var k := FirstHit(t, hp, size);
    k < |t| && (Contained(t[k], hp, size) || implicit)
  }

  predicate Unmapped(t: seq<Entry>, hp: int, size: nat) {
    FirstHit(t, hp, size) == |t|
  }

  /**
   * The begin of the argument is accepted, does not force deletion, and for a struct member
   * the member's range and pointer slot are mapped already.
   */
  predicate Accepted(m: Mapping, a: Arg, c: Choice) {
    a.ty.Skipped() ||
    (&& !a.ty.delete
     && (a.ty.ptrAndObj ==> a.ty.IsMember() && Referable(m.table, a.base, PTR_SIZE, a.ty.implicit))
     && (|| Referable(m.table, a.begin, a.size, a.ty.implicit)
         || (Unmapped(m.table, a.begin, a.size)
             && (a.size == 0 || (!a.ty.IsPlainMember() && c.objAddr !in m.blocks)))))
  }

  ghost predicate AcceptedProg(s: State, p: Prog)
    decreases p
  {
    match p
    case Compute => true
    case Kernel(_) => true
    case Scope(it, c, body) => Accepted(s.m, it.arg, c) && AcceptedProg(BeginItem(s, it, c), body)
    case Then(first, second) => AcceptedProg(s, first) && AcceptedProg(Exec(s, first), second)
  }

  lemma ObtainKeepsPositive(m: Mapping, hp: int, base: int, size: nat, implicit: bool, update: bool, addr: int)
    requires Positive(m.table)
    ensures Positive(GetOrAlloc(m, hp, base, size, implicit, update, addr).m.table)
  {
  }

  lemma BeginKeepsPositive(s: State, it: Item, c: Choice)
    requires Positive(s.m.table)
    ensures Positive(BeginItem(s, it, c).m.table)
  {
    var a := it.arg;
    var slot := ObtainSlot(s.m, a, c);
    ObtainKeepsPositive(s.m, a.base, a.base, PTR_SIZE, a.ty.implicit, !a.ty.IsMember(), c.slotAddr);
    ObtainKeepsPositive(slot.m, a.begin, ObjBase(s.host, a), a.size, a.ty.implicit, !a.ty.IsPlainMember(), c.objAddr);
  }

  lemma SameRangesSameHit(t: seq<Entry>, t': seq<Entry>, hp: int, size: nat)
    requires |t| == |t'|
    requires forall i :: 0 <= i < |t| ==> t[i].begin == t'[i].begin && t[i].end == t'[i].end
    ensures FirstHit(t, hp, size) == FirstHit(t', hp, size)
  {
    var k, k' := FirstHit(t, hp, size), FirstHit(t', hp, size);
    assert k < |t| ==> Hit(t'[k], hp, size);
    assert k' < |t| ==> Hit(t[k'], hp, size);
  }

  /** What an ending lookup sees right after a request that found its range mapped. */
  lemma LookupAfterJoin(m: Mapping, hp: int, base: int, size: nat, implicit: bool, update: bool, addr: int)
    requires Positive(m.table) && Referable(m.table, hp, size, implicit)
    ensures var o := GetOrAlloc(m, hp, base, size, implicit, update, addr);
            var l := GetTgtPtr(o.m, hp, size, update);
            o.isNew.Existing? && l.tp == o.tp && l.m == m && (if update then !l.isLast else o.m == m)
  {
    var k := FirstHit(m.table, hp, size);
    var e := m.table[k];
    var t' := m.table[k := e.(rc := e.rc + if update then 1 else 0)];
    SameRangesSameHit(m.table, t', hp, size);
    assert t'[k := e] == m.table;
    assert m.table[k := e] == m.table;
  }

  /** What it sees after a request that was given an entry of its own, or nothing at all. */
  lemma LookupAfterOpen(m: Mapping, hp: int, base: int, size: nat, implicit: bool, update: bool, addr: int)
    requires Unmapped(m.table, hp, size) && (size == 0 || addr !in m.blocks)
    ensures var o := GetOrAlloc(m, hp, base, size, implicit, update, addr);
            var l := GetTgtPtr(o.m, hp, size, update);
            && l.tp == o.tp && l.m == o.m
            && (if size == 0 then o.m == m && o.isNew.Unset? && !l.isLast
                else o.isNew.Fresh? && l.isLast && Dealloc(o.m, hp, size, false).m == m)
  {
    var o := GetOrAlloc(m, hp, base, size, implicit, update, addr);
    if size != 0 {
      assert Hit(o.m.table[0], hp, size);
      assert FirstHit(o.m.table, hp, size) == 0;
      assert Erase(o.m.table, 0) == m.table;
      assert o.m.blocks - {addr} == m.blocks;
    }
  }

  /** An accepted pointer slot belongs to a mapped struct, so obtaining it changes nothing. */
  lemma SlotIsThere(m: Mapping, a: Arg, c: Choice)
    requires Accepted(m, a, c) && !a.ty.Skipped()
    ensures ObtainSlot(m, a, c).m == m
  {
    var k := FirstHit(m.table, a.base, PTR_SIZE);
    if a.ty.ptrAndObj {
      assert m.table[k := m.table[k]] == m.table;
    }
  }

  /** The end of an argument undoes its begin on the table, list order included. */
  lemma EndUndoesBegin(s: State, s': State, it: Item, c: Choice)
    requires Positive(s.m.table) && Accepted(s.m, it.arg, c)
    requires s'.m == BeginItem(s, it, c).m
    ensures EndItem(s', it).m == s.m
  {
    var a := it.arg;
    if !a.ty.Skipped() {
      SlotIsThere(s.m, a, c);
      if Unmapped(s.m.table, a.begin, a.size) {
        LookupAfterOpen(s.m, a.begin, ObjBase(s.host, a), a.size, a.ty.implicit, !a.ty.IsPlainMember(), c.objAddr);
      } else {
        LookupAfterJoin(s.m, a.begin, ObjBase(s.host, a), a.size, a.ty.implicit, !a.ty.IsPlainMember(), c.objAddr);
      }
    }
  }

  /** Any well-nested sequence of accepted regions leaves the table as it was. */
  lemma {:induction false} RegionsRestoreTable(s: State, p: Prog)
    requires Positive(s.m.table) && AcceptedProg(s, p)
    ensures Exec(s, p).m == s.m
    decreases p
  {
    match p
    case Compute =>
    case Kernel(_) =>
    case Scope(it, c, body) =>
      BeginKeepsPositive(s, it, c);
      RegionsRestoreTable(BeginItem(s, it, c), body);
      EndUndoesBegin(s, Exec(BeginItem(s, it, c), body), it, c);
    case Then(first, second) =>
      RegionsRestoreTable(s, first);
      RegionsRestoreTable(Exec(s, first), second);
  }

  // ------------------------------------------------- when it does not hold

  /** All references recorded in the table. */
  function Refs(t: seq<Entry>): int {
    if |t| == 0 then 0 else t[0].rc + Refs(t[1..])
  }

  lemma {:induction false} RefsOfUpdate(t: seq<Entry>, k: nat, e: Entry)
    requires k < |t|
    ensures Refs(t[k := e]) == Refs(t) - t[k].rc + e.rc
  {
    if k > 0 {
      assert t[k := e][1..] == t[1..][k - 1 := e];
      RefsOfUpdate(t[1..], k - 1, e);
    } else {
      assert t[0 := e][1..] == t[1..];
    }
  }

  lemma {:induction false} RefsOfErase(t: seq<Entry>, k: nat)
    requires k < |t|
    ensures Refs(Erase(t, k)) == Refs(t) - t[k].rc
  {
    if k > 0 {
      assert Erase(t, k)[1..] == Erase(t[1..], k - 1);
      RefsOfErase(t[1..], k - 1);
    } else {
      assert Erase(t, 0) == t[1..];
    }
  }

  lemma RefsOfObtain(m: Mapping, hp: int, base: int, size: nat, implicit: bool, update: bool, addr: int)
    ensures var o := GetOrAlloc(m, hp, base, size, implicit, update, addr);
            Refs(o.m.table) - Refs(m.table)
            == if o.isNew.Fresh? || (o.isNew.Existing? && update) then 1 else 0
  {
    var o := GetOrAlloc(m, hp, base, size, implicit, update, addr);
    var k := FirstHit(m.table, hp, size);
    if o.isNew.Existing? {
      RefsOfUpdate(m.table, k, o.m.table[k]);
    } else if o.isNew.Fresh? {
      assert o.m.table[1..] == m.table;
    }
  }

  /** Without DELETE an end gives up at most one reference, and none for a plain member or an unmapped range. */
  lemma EndGivesUpAtMostOne(s: State, it: Item)
    requires Positive(s.m.table) && !it.arg.ty.delete
    ensures Positive(EndItem(s, it).m.table)
    ensures Refs(EndItem(s, it).m.table) >= Refs(s.m.table)
         - if it.arg.ty.IsPlainMember() || Unmapped(s.m.table, it.arg.begin, it.arg.size) then 0 else 1
  {
    var a, t := it.arg, s.m.table;
    var k := FirstHit(t, a.begin, a.size);
    if !a.ty.Skipped() && k < |t| {
      RefsOfUpdate(t, k, t[k].(rc := t[k].rc - 1));
      RefsOfErase(t, k);
    }
  }

  /** The argument's requests are all granted, whatever they do to the table; an empty range needs no entry. */
  predicate Granted(m: Mapping, it: Item, c: Choice, host: Mem) {
    var a := it.arg;
    a.ty.Skipped() ||
    (&& !a.ty.delete
     && (a.ty.ptrAndObj ==> !ObtainSlot(m, a, c).isNew.Unset?)
     && (ObtainObj(ObtainSlot(m, a, c).m, host, a, c).isNew.Unset? ==> a.size == 0)
     && (ObtainObj(ObtainSlot(m, a, c).m, host, a, c).isNew.Fresh? ==> c.objAddr !in m.blocks))
  }

  /** The argument is an empty range that its begin found no entry for, and that may give back a reference. */
  predicate Hollow(m: Mapping, a: Arg) {
    !a.ty.Skipped() && !a.ty.IsPlainMember() && a.size == 0 && Unmapped(m.table, a.begin, 0)
  }

  /** Granted arguments; what a hollow one points at is not mapped when it ends either. */
  ghost predicate GrantedProg(s: State, p: Prog)
    decreases p
  {
    match p
    case Compute => true
    case Kernel(_) => true
    case Scope(it, c, body) =>
      var s1 := BeginItem(s, it, c);
      && Granted(s.m, it, c, s.host) && GrantedProg(s1, body)
      && (Hollow(s1.m, it.arg) ==> Hollow(Exec(s1, body).m, it.arg))
    case Then(first, second) => GrantedProg(s, first) && GrantedProg(Exec(s, first), second)
  }

  /**
   * target_data_end gives back what target_data_begin took for this argument: a pointer slot
   * is part of a struct of the same list that is mapped by then, and so is a plain member.
   */
  predicate Balanced(m: Mapping, a: Arg) {
    a.ty.Skipped() ||
    (&& (a.ty.ptrAndObj ==> a.ty.IsMember() && Referable(m.table, a.base, PTR_SIZE, a.ty.implicit))
     && (a.ty.IsPlainMember() ==>
           Referable(m.table, a.begin, a.size, a.ty.implicit) || (a.size == 0 && Unmapped(m.table, a.begin, 0))))
  }

  ghost predicate BalancedProg(s: State, p: Prog)
    decreases p
  {
    match p
    case Compute => true
    case Kernel(_) => true
    case Scope(it, c, body) => Balanced(s.m, it.arg) && BalancedProg(BeginItem(s, it, c), body)
    case Then(first, second) => BalancedProg(s, first) && BalancedProg(Exec(s, first), second)
  }

  lemma BeginTakesReferences(s: State, it: Item, c: Choice)
    requires Granted(s.m, it, c, s.host) && !it.arg.ty.Skipped()
    ensures Refs(BeginItem(s, it, c).m.table)
         >= Refs(s.m.table)
            + (if it.arg.ty.IsPlainMember() || Hollow(BeginItem(s, it, c).m, it.arg) then 0 else 1)
            + (if Balanced(s.m, it.arg) then 0 else 1)
  {
    var a := it.arg;
    var slot := ObtainSlot(s.m, a, c);
    RefsOfObtain(s.m, a.base, a.base, PTR_SIZE, a.ty.implicit, !a.ty.IsMember(), c.slotAddr);
    RefsOfObtain(slot.m, a.begin, ObjBase(s.host, a), a.size, a.ty.implicit, !a.ty.IsPlainMember(), c.objAddr);
  }

  lemma {:induction false} ReferencesNeverShrink(s: State, p: Prog)
    requires Positive(s.m.table) && GrantedProg(s, p)
    ensures Positive(Exec(s, p).m.table)
    ensures Refs(Exec(s, p).m.table) >= Refs(s.m.table) + if BalancedProg(s, p) then 0 else 1
    decreases p
  {
    match p
    case Compute =>
    case Kernel(_) =>
    case Scope(it, c, body) =>
      var s1 := BeginItem(s, it, c);
      BeginKeepsPositive(s, it, c);
      ReferencesNeverShrink(s1, body);
      if !it.arg.ty.Skipped() {
        BeginTakesReferences(s, it, c);
        EndGivesUpAtMostOne(Exec(s1, body), it);
      }
    case Then(first, second) =>
      ReferencesNeverShrink(s, first);
      ReferencesNeverShrink(Exec(s, first), second);
  }

  lemma AcceptedIffGranted(s: State, it: Item, c: Choice)
    ensures Accepted(s.m, it.arg, c) <==> Granted(s.m, it, c, s.host) && Balanced(s.m, it.arg)
  {
    var a := it.arg;
    if a.ty.ptrAndObj && !a.ty.Skipped() && Referable(s.m.table, a.base, PTR_SIZE, a.ty.implicit) {
      var k := FirstHit(s.m.table, a.base, PTR_SIZE);
      assert s.m.table[k := s.m.table[k]] == s.m.table;
    }
  }

  /** The accepted programs are the granted ones whose arguments are all balanced. */
  lemma {:induction false} AcceptedIsGrantedAndBalanced(s: State, p: Prog)
    requires Positive(s.m.table)
    ensures AcceptedProg(s, p) <==> GrantedProg(s, p) && BalancedProg(s, p)
    decreases p
  {
    match p
    case Compute =>
    case Kernel(_) =>
    case Scope(it, c, body) =>
      AcceptedIffGranted(s, it, c);
      BeginKeepsPositive(s, it, c);
      AcceptedIsGrantedAndBalanced(BeginItem(s, it, c), body);
      if AcceptedProg(s, p) {
        RegionsRestoreTable(BeginItem(s, it, c), body);
      }
    case Then(first, second) =>
      AcceptedIsGrantedAndBalanced(s, first);
      if AcceptedProg(s, first) {
        RegionsRestoreTable(s, first);
        AcceptedIsGrantedAndBalanced(Exec(s, first), second);
      }
  }

  /**
   * For regions whose requests are granted, the table comes back exactly when every argument
   * is balanced. A pointer mapped together with its pointee outside of a struct is not:
   * target_data_end gives back the pointee only.
   */
  lemma TableRestoredIffBalanced(s: State, p: Prog)
    requires Positive(s.m.table) && GrantedProg(s, p)
    ensures Exec(s, p).m == s.m <==> BalancedProg(s, p)
  {
    ReferencesNeverShrink(s, p);
    if BalancedProg(s, p) {
      AcceptedIsGrantedAndBalanced(s, p);
      RegionsRestoreTable(s, p);
    }
  }
}
