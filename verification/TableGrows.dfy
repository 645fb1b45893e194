/**
 * Regions whose requests are granted, balanced or not: the entries they find stay, with as many
 * references as before, so what a region has mapped stays mapped until its own end.
 */
module TableGrows {
  import opened Memory
  import opened MappingTable
  import opened MappingInvariants
  import opened TargetData
  import opened TableRestored

  // ------------------------------------------------------------ conditions

  /** The hit of a request, if any, contains all of the range. */
  predicate NotPartial(t: seq<Entry>, hp: int, size: nat) {
    var k := FirstHit(t, hp, size);
    k < |t| ==> Contained(t[k], hp, size)
  }

  /** A request that is granted as a whole, on unused device memory. */
  ghost predicate Whole(m: Mapping, hp: int, size: nat, addr: int) {
    NotPartial(m.table, hp, size) && (size != 0 && Unmapped(m.table, hp, size) ==> FreeOnDevice(m, addr, size))
  }

  /** Both requests of the begin are granted as a whole. */
  ghost predicate WholeRequests(m: Mapping, a: Arg, c: Choice) {
    a.ty.Skipped() ||
    (&& (a.ty.ptrAndObj ==> Whole(m, a.base, PTR_SIZE, c.slotAddr))
     && Whole(ObtainSlot(m, a, c).m, a.begin, a.size, c.objAddr))
  }

  /** Without DELETE, FROM only with TO, and both requests of the begin granted as a whole. */
  ghost predicate Faithful(m: Mapping, a: Arg, c: Choice) {
    WholeRequests(m, a, c) && (a.ty.Skipped() || (!a.ty.delete && (a.ty.from ==> a.ty.to)))
  }

  lemma FaithfulRequests(m: Mapping, a: Arg, c: Choice)
    requires Faithful(m, a, c)
    ensures WholeRequests(m, a, c)
  {
  }

  /**
   * A struct member that is copied back when the struct is: the struct is mapped already, or
   * the body gives back every reference it takes.
   */
  ghost predicate ParentSteady(s: State, it: Item, c: Choice, body: Prog) {
    it.arg.ty.from && it.arg.ty.IsPlainMember() ==>
      RefCnt(s.m.table, it.parent) != -1 || AcceptedProg(BeginItem(s, it, c), body)
  }

  ghost predicate FaithfulProg(s: State, p: Prog)
    decreases p
  {
    match p
    case Compute => true
    case Kernel(_) => SameBytes(Exec(s, p).dev, s.dev)
    case Scope(it, c, body) =>
      Faithful(s.m, it.arg, c) && ParentSteady(s, it, c, body) && FaithfulProg(BeginItem(s, it, c), body)
    case Then(first, second) => FaithfulProg(s, first) && FaithfulProg(Exec(s, first), second)
  }

  // ------------------------------------------------------------- survival

  /** The table has an entry for the range of e, at the same device address, with more references. */
  ghost predicate Survives(e: Entry, more: int, t: seq<Entry>) {
    exists j :: 0 <= j < |t| && t[j].begin == e.begin && t[j].end == e.end && t[j].tgt == e.tgt && t[j].rc >= e.rc + more
  }

  ghost predicate Grown(t: seq<Entry>, t': seq<Entry>) {
    forall i {:trigger t[i]} :: 0 <= i < |t| ==> Survives(t[i], 0, t')
  }

  lemma SurvivesOn(e: Entry, more: int, t: seq<Entry>, t': seq<Entry>)
    requires Survives(e, more, t) && Grown(t, t')
    ensures Survives(e, more, t')
  {
    var j :| 0 <= j < |t| && t[j].begin == e.begin && t[j].end == e.end && t[j].tgt == e.tgt && t[j].rc >= e.rc + more;
    assert Survives(t[j], 0, t');
  }

  lemma GrownOn(t: seq<Entry>, t': seq<Entry>, t'': seq<Entry>)
    requires Grown(t, t') && Grown(t', t'')
    ensures Grown(t, t'')
  {
    forall i | 0 <= i < |t|
      ensures Survives(t[i], 0, t'')
    {
      SurvivesOn(t[i], 0, t', t'');
    }
  }

  lemma GrownBySelf(t: seq<Entry>)
    ensures Grown(t, t)
  {
  }

  // ------------------------------------------------------------- one begin

  lemma ObtainGrows(m: Mapping, hp: int, base: int, size: nat, implicit: bool, update: bool, addr: int, i: nat)
    requires i < |m.table| && NotPartial(m.table, hp, size)
    ensures var t' := GetOrAlloc(m, hp, base, size, implicit, update, addr).m.table;
      Survives(m.table[i], if update && i == FirstHit(m.table, hp, size) then 1 else 0, t')
  {
    var t, t' := m.table, GetOrAlloc(m, hp, base, size, implicit, update, addr).m.table;
    var j := if |t'| == |t| then i else i + 1;
    assert t'[j].begin == t[i].begin;
  }

  /** Neither request of the begin hits an entry that does not contain its range. */
  predicate WithinEntries(m: Mapping, a: Arg, c: Choice) {
    a.ty.Skipped() ||
    (&& (a.ty.ptrAndObj ==> NotPartial(m.table, a.base, PTR_SIZE))
     && NotPartial(ObtainSlot(m, a, c).m.table, a.begin, a.size))
  }

  /** Such a begin keeps every entry. */
  lemma BeginGrows(s: State, it: Item, c: Choice)
    requires WithinEntries(s.m, it.arg, c)
    ensures Grown(s.m.table, BeginItem(s, it, c).m.table)
  {
    var a, t, slot := it.arg, s.m.table, ObtainSlot(s.m, it.arg, c);
    if a.ty.Skipped() {
      GrownBySelf(t);
    } else {
      assert Grown(t, slot.m.table) by {
        if a.ty.ptrAndObj {
          forall i | 0 <= i < |t|
            ensures Survives(t[i], 0, slot.m.table)
          {
            ObtainGrows(s.m, a.base, a.base, PTR_SIZE, a.ty.implicit, !a.ty.IsMember(), c.slotAddr, i);
          }
        } else {
          GrownBySelf(t);
        }
      }
      ObjGrows(slot.m, s.host, a, c);
      GrownOn(t, slot.m.table, ObtainObj(slot.m, s.host, a, c).m.table);
    }
  }

  lemma FaithfulIsWithin(m: Mapping, a: Arg, c: Choice)
    requires Faithful(m, a, c)
    ensures WithinEntries(m, a, c)
  {
  }

  lemma ObjGrows(m: Mapping, host: Mem, a: Arg, c: Choice)
    requires NotPartial(m.table, a.begin, a.size)
    ensures Grown(m.table, ObtainObj(m, host, a, c).m.table)
  {
    forall i | 0 <= i < |m.table|
      ensures Survives(m.table[i], 0, ObtainObj(m, host, a, c).m.table)
    {
      ObtainGrows(m, a.begin, ObjBase(host, a), a.size, a.ty.implicit, !a.ty.IsPlainMember(), c.objAddr, i);
    }
  }

  /** What a contained range hits contains it. */
  lemma HitIsContained(t: seq<Entry>, hp: int, size: nat, i: nat, k: nat)
    requires ValidTable(t) && i < |t| && k < |t| && Hit(t[i], hp, size) && Contained(t[k], hp, size)
    ensures i == k
  {
    assert i < k ==> Separate(t[i], t[k]);
    assert k < i ==> Separate(t[k], t[i]);
  }

  lemma BeginKeepsTables(s: State, it: Item, c: Choice)
    requires Inv(s.m) && WholeRequests(s.m, it.arg, c)
    ensures !it.arg.ty.Skipped() ==> Inv(ObtainSlot(s.m, it.arg, c).m)
    ensures Inv(BeginItem(s, it, c).m)
  {
    var a := it.arg;
    if !a.ty.Skipped() {
      var slot := ObtainSlot(s.m, a, c);
      if a.ty.ptrAndObj {
        StepKeepsInv(s.m, Begin(a.base, a.base, PTR_SIZE, a.ty.implicit, !a.ty.IsMember(), c.slotAddr));
      }
      StepKeepsInv(slot.m, Begin(a.begin, ObjBase(s.host, a), a.size, a.ty.implicit, !a.ty.IsPlainMember(), c.objAddr));
    }
  }

  /** An entry that the argument's range hits gains a reference, unless the argument is a plain member. */
  lemma HitGains(s: State, it: Item, c: Choice, i: nat)
    requires Inv(s.m) && Faithful(s.m, it.arg, c) && !it.arg.ty.Skipped() && !it.arg.ty.IsPlainMember()
    requires i < |s.m.table| && Hit(s.m.table[i], it.arg.begin, it.arg.size)
    ensures Survives(s.m.table[i], 1, BeginItem(s, it, c).m.table)
  {
    var a, e, slot := it.arg, s.m.table[i], ObtainSlot(s.m, it.arg, c);
    var t := slot.m.table;
    FaithfulRequests(s.m, it.arg, c);
    BeginKeepsTables(s, it, c);
    assert Survives(e, 0, t) by {
      if a.ty.ptrAndObj {
        ObtainGrows(s.m, a.base, a.base, PTR_SIZE, a.ty.implicit, !a.ty.IsMember(), c.slotAddr, i);
      } else {
        GrownBySelf(t);
      }
    }
    var j :| 0 <= j < |t| && t[j].begin == e.begin && t[j].end == e.end && t[j].tgt == e.tgt && t[j].rc >= e.rc;
    var k := FirstHit(t, a.begin, a.size);
    assert Hit(t[j], a.begin, a.size);
    HitIsContained(t, a.begin, a.size, j, k);
    ObtainGrows(slot.m, a.begin, ObjBase(s.host, a), a.size, a.ty.implicit, true, c.objAddr, k);
  }

  // --------------------------------------------------------------- one end

  /** What an end takes away: at most one reference, from an entry its range hits. */
  lemma EndTakesOne(s: State, it: Item, i: nat)
    requires Inv(s.m) && !it.arg.ty.delete && i < |s.m.table|
    ensures var e, t' := s.m.table[i], EndItem(s, it).m.table;
      && (it.arg.ty.Skipped() || it.arg.ty.IsPlainMember() || !Hit(e, it.arg.begin, it.arg.size) ==> Survives(e, 0, t'))
      && (e.rc >= 2 ==> Survives(e, -1, t'))
  {
    var e, t, t' := s.m.table[i], s.m.table, EndItem(s, it).m.table;
    var k := FirstHit(t, it.arg.begin, it.arg.size);
    var j := if |t'| == |t| || i < k then i else i - 1;
    if i != k || e.rc >= 2 || |t'| == |t| {
      assert t'[j].begin == e.begin;
    }
  }

  lemma EndKeepsTable(s: State, it: Item)
    requires Inv(s.m) && !it.arg.ty.delete
    ensures Inv(EndItem(s, it).m)
  {
    var a, m := it.arg, s.m;
    if !a.ty.Skipped() {
      var k := FirstHit(m.table, a.begin, a.size);
      StepKeepsInv(m, Lookup(a.begin, a.size, !a.ty.IsPlainMember()));
      if Deletes(LookupForEnd(m, a), a) {
        EraseKeepsInv(m, k);
      }
    }
  }

  /** The end of an argument, after a body that only let the table grow, leaves what its begin found. */
  lemma EndGrows(s: State, s2: State, it: Item, c: Choice)
    requires Inv(s.m) && Inv(s2.m) && Faithful(s.m, it.arg, c)
    requires Grown(BeginItem(s, it, c).m.table, s2.m.table)
    ensures Grown(s.m.table, EndItem(s2, it).m.table)
  {
    hide BeginItem, EndItem, Faithful, WithinEntries, Inv;
    var a, t, t1, t2 := it.arg, s.m.table, BeginItem(s, it, c).m.table, s2.m.table;
    if a.ty.Skipped() {
      SkippedChangesNothing(s, it, c);
      SkippedChangesNothing(s2, it, c);
    } else {
      FaithfulIsWithin(s.m, it.arg, c);
      BeginGrows(s, it, c);
      forall i | 0 <= i < |t|
        ensures Survives(t[i], 0, EndItem(s2, it).m.table)
      {
        EndGrowsAt(s, s2, it, c, i);
      }
    }
  }

  lemma SkippedChangesNothing(s: State, it: Item, c: Choice)
    requires it.arg.ty.Skipped()
    ensures BeginItem(s, it, c) == s && EndItem(s, it) == s
  {
  }

  lemma FaithfulHasNoDelete(m: Mapping, a: Arg, c: Choice)
    requires Faithful(m, a, c) && !a.ty.Skipped()
    ensures !a.ty.delete
  {
  }

  lemma EndGrowsAt(s: State, s2: State, it: Item, c: Choice, i: nat)
    requires Inv(s.m) && Inv(s2.m) && Faithful(s.m, it.arg, c) && !it.arg.ty.Skipped()
    requires Grown(s.m.table, BeginItem(s, it, c).m.table)
    requires Grown(BeginItem(s, it, c).m.table, s2.m.table) && i < |s.m.table|
    ensures Survives(s.m.table[i], 0, EndItem(s2, it).m.table)
  {
    hide BeginItem, EndItem, Faithful, Grown, BlocksMatch;
    var a, e, t2 := it.arg, s.m.table[i], s2.m.table;
    FaithfulHasNoDelete(s.m, a, c);
    var more := if !a.ty.IsPlainMember() && Hit(e, a.begin, a.size) then 1 else 0;
    assert Survives(e, more, BeginItem(s, it, c).m.table) by {
      if more == 1 {
        HitGains(s, it, c, i);
      } else {
        FindSurvivor(s.m.table, BeginItem(s, it, c).m.table, i);
      }
    }
    SurvivesOn(e, more, BeginItem(s, it, c).m.table, t2);
    var j :| 0 <= j < |t2| && t2[j].begin == e.begin && t2[j].end == e.end && t2[j].tgt == e.tgt && t2[j].rc >= e.rc + more;
    EndTakesOne(s2, it, j);
  }

  lemma FindSurvivor(t: seq<Entry>, t': seq<Entry>, i: nat)
    requires Grown(t, t') && i < |t|
    ensures Survives(t[i], 0, t')
  {
  }

  // ---------------------------------------------------------- all programs

  /** A granted program keeps every entry it finds, with no fewer references. */
  lemma {:induction false} ProgGrows(s: State, p: Prog)
    requires Inv(s.m) && FaithfulProg(s, p)
    ensures Inv(Exec(s, p).m) && Grown(s.m.table, Exec(s, p).m.table)
    decreases p
  {
    hide BeginItem, EndItem, Faithful, ParentSteady, Inv, Grown;
    match p
    case Compute =>
      GrownBySelf(s.m.table);
    case Kernel(_) =>
      GrownBySelf(s.m.table);
    case Then(first, second) =>
      ProgGrows(s, first);
      ProgGrows(Exec(s, first), second);
      GrownOn(s.m.table, Exec(s, first).m.table, Exec(s, p).m.table);
    case Scope(it, c, body) =>
      var s1 := BeginItem(s, it, c);
      FaithfulRequests(s.m, it.arg, c);
      BeginKeepsTables(s, it, c);
      ProgGrows(s1, body);
      EndGrows(s, Exec(s1, body), it, c);
      EndKeepsInv(s, Exec(s1, body), it, c);
  }

  lemma EndKeepsInv(s: State, s2: State, it: Item, c: Choice)
    requires Inv(s2.m) && Faithful(s.m, it.arg, c)
    ensures Inv(EndItem(s2, it).m)
  {
    if !it.arg.ty.Skipped() {
      EndKeepsTable(s2, it);
    }
  }
}
