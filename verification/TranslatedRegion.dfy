/**
 * Why translate_map makes combined entries: a region over the list it produces gives back
 * every reference it takes.
 */
module TranslatedRegion {
  import opened Memory
  import opened MappingTable
  import opened TargetData
  import opened TableRestored
  import opened TableGrows
  import Grouping
  import GroupCover
  import TranslateMap

  // ------------------------------------------------------- anchored lists

  /** An earlier argument, itself no member, has the member's slot or range within its own. */
  predicate Anchored(args: seq<Arg>, p: nat)
    requires p < |args|
  {
    var a := args[p];
    && !a.ty.implicit
    && (a.ty.ptrAndObj && !a.ty.Skipped() ==> a.ty.IsMember())
    && (a.ty.IsMember() && !a.ty.Skipped() ==>
          && a.ty.memberOf - 1 < p
          && var parent := args[a.ty.memberOf - 1];
             && !parent.ty.Skipped()
             && (a.ty.ptrAndObj ==> parent.begin <= a.base < parent.begin + parent.size)
             && (!a.ty.ptrAndObj && a.size > 0 ==> parent.begin <= a.begin < parent.begin + parent.size))
  }

  /** An entry contains the range. */
  ghost predicate Held(t: seq<Entry>, hp: int, size: nat) {
    exists j :: 0 <= j < |t| && t[j].begin <= hp && hp + size <= t[j].end
  }

  lemma HeldGrows(t: seq<Entry>, t': seq<Entry>, hp: int, size: nat)
    requires Grown(t, t') && Held(t, hp, size)
    ensures Held(t', hp, size)
  {
    var j :| 0 <= j < |t| && t[j].begin <= hp && hp + size <= t[j].end;
    FindSurvivor(t, t', j);
    var k :| 0 <= k < |t'| && t'[k].begin == t[j].begin && t'[k].end == t[j].end;
    assert t'[k].begin <= hp && hp + size <= t'[k].end;
  }

  /** A granted request leaves its range in an entry. */
  lemma ObtainHolds(m: Mapping, hp: int, base: int, size: nat, update: bool, addr: int)
    requires !GetOrAlloc(m, hp, base, size, false, update, addr).isNew.Unset?
    ensures NotPartial(m.table, hp, size)
    ensures Held(GetOrAlloc(m, hp, base, size, false, update, addr).m.table, hp, size)
  {
    var o, k := GetOrAlloc(m, hp, base, size, false, update, addr), FirstHit(m.table, hp, size);
    var j := if k < |m.table| then k else 0;
    assert o.m.table[j].begin <= hp && hp + size <= o.m.table[j].end;
  }

  lemma EmptyIsWithin(t: seq<Entry>, hp: int)
    ensures NotPartial(t, hp, 0)
  {
  }

  lemma GrantedIsWithin(s: State, it: Item, c: Choice)
    requires Granted(s.m, it, c, s.host) && !it.arg.ty.implicit
    ensures WithinEntries(s.m, it.arg, c)
    ensures it.arg.size > 0 && !it.arg.ty.Skipped() ==>
      Held(BeginItem(s, it, c).m.table, it.arg.begin, it.arg.size)
  {
    var a, slot := it.arg, ObtainSlot(s.m, it.arg, c);
    if !a.ty.Skipped() {
      if a.ty.ptrAndObj {
        ObtainHolds(s.m, a.base, a.base, PTR_SIZE, !a.ty.IsMember(), c.slotAddr);
      }
      if ObtainObj(slot.m, s.host, a, c).isNew.Unset? {
        EmptyIsWithin(slot.m.table, a.begin);
      } else {
        ObtainHolds(slot.m, a.begin, ObjBase(s.host, a), a.size, !a.ty.IsPlainMember(), c.objAddr);
      }
    }
  }

  /** A range that begins within an entry is hit, so a granted request for it is contained. */
  lemma BegunIsReferable(t: seq<Entry>, lo: int, n: nat, hp: int, size: nat)
    requires Held(t, lo, n) && lo <= hp < lo + n && size > 0 && NotPartial(t, hp, size)
    ensures Referable(t, hp, size, false)
  {
    var j :| 0 <= j < |t| && t[j].begin <= lo && lo + n <= t[j].end;
    assert Hit(t[j], hp, size);
  }

  /** The ranges of the arguments before i that are no member and not empty. */
  ghost predicate HeldBefore(t: seq<Entry>, args: seq<Arg>, i: nat)
    requires i <= |args|
  {
    forall q {:trigger args[q]} :: 0 <= q < i && !args[q].ty.Skipped() && args[q].size > 0 ==>
      Held(t, args[q].begin, args[q].size)
  }

  lemma AnchoredIsBalanced(s: State, args: seq<Arg>, c: Choice, i: nat)
    requires WellFormed(args) && i < |args| && Anchored(args, i) && HeldBefore(s.m.table, args, i)
    requires Granted(s.m, Resolve(args, i), c, s.host)
    ensures Balanced(s.m, args[i])
  {
    var a, slot := args[i], ObtainSlot(s.m, args[i], c);
    GrantedIsWithin(s, Resolve(args, i), c);
    if a.ty.IsMember() && !a.ty.Skipped() {
      var parent := args[a.ty.memberOf - 1];
      if a.ty.ptrAndObj {
        BegunIsReferable(s.m.table, parent.begin, parent.size, a.base, PTR_SIZE);
      } else if a.size > 0 {
        BegunIsReferable(s.m.table, parent.begin, parent.size, a.begin, a.size);
      } else {
        EmptyIsWithin(s.m.table, a.begin);
      }
    }
  }

  lemma BeginHoldsMore(s: State, args: seq<Arg>, c: Choice, i: nat)
    requires WellFormed(args) && i < |args| && Anchored(args, i) && HeldBefore(s.m.table, args, i)
    requires Granted(s.m, Resolve(args, i), c, s.host)
    ensures HeldBefore(BeginItem(s, Resolve(args, i), c).m.table, args, i + 1)
  {
    hide BeginItem, Granted, Held, Grown, WithinEntries;
    var t' := BeginItem(s, Resolve(args, i), c).m.table;
    GrantedIsWithin(s, Resolve(args, i), c);
    BeginGrows(s, Resolve(args, i), c);
    forall q | 0 <= q < i && !args[q].ty.Skipped() && args[q].size > 0
      ensures Held(t', args[q].begin, args[q].size)
    {
      HeldGrows(s.m.table, t', args[q].begin, args[q].size);
    }
  }

  /** A region over anchored arguments whose requests are granted is balanced. */
  lemma {:induction false} AnchoredRegionIsBalanced(s: State, args: seq<Arg>, cs: seq<Choice>, ks: seq<Store>, i: nat)
    requires WellFormed(args) && |cs| == |args| && i <= |args| && HeldBefore(s.m.table, args, i)
    requires forall p :: 0 <= p < |args| ==> Anchored(args, p)
    requires GrantedProg(s, RegionFrom(args, cs, Kernel(ks), i))
    ensures BalancedProg(s, RegionFrom(args, cs, Kernel(ks), i))
    decreases |args| - i
  {
    hide BeginItem, Granted, Balanced, HeldBefore, Anchored, Hollow;
    if i < |args| {
      AnchoredIsBalanced(s, args, cs[i], i);
      BeginHoldsMore(s, args, cs[i], i);
      AnchoredRegionIsBalanced(BeginItem(s, Resolve(args, i), cs[i]), args, cs, ks, i + 1);
    }
  }

  // ------------------------------------------------------ translated lists

  /** How target_data_begin reads an entry of the new list; old types have no IMPLICIT bit. */
  function ArgOf(e: TranslateMap.Entry): Arg {
    var f := e.flags;
    Arg(e.base, e.begin, if e.size >= 0 then e.size else 0,
        MapType(f.to, f.from, f.always, f.delete, f.mapPtr, f.privatePtr, f.privateVal, false,
                if TranslateMap.DecodeMember(e.memberField) >= 0 then TranslateMap.DecodeMember(e.memberField) + 1 else 0))
  }

  function ArgsOf(es: seq<TranslateMap.Entry>): (args: seq<Arg>)
    ensures |args| == |es| && forall p :: 0 <= p < |es| ==> args[p] == ArgOf(es[p])
  {
    seq(|es|, p requires 0 <= p < |es| => ArgOf(es[p]))
  }

  /** Entry p of the new list is a combined entry or one of the first k old ones. */
  ghost predicate Known(olds: seq<Grouping.Old>, st: Grouping.Grouped, out: seq<TranslateMap.Entry>, k: nat, p: nat)
    requires p < |out| && k <= |olds| == |st.memberOf|
  {
    || (exists c :: 0 <= c < |st.groups| && out[p] == TranslateMap.CombinedEntry(st.groups[c]))
    || (exists i: nat :: i < k && p == TranslateMap.Position(st.memberOf, i))
  }

  lemma {:induction false} AllKnown(
    olds: seq<Grouping.Old>, st: Grouping.Grouped, target: bool, junk: seq<int>, k: nat, p: nat
  )
    requires k <= |olds| && Grouping.Shaped(st, |olds|) && |junk| == |st.groups|
    requires p < |TranslateMap.EmitUpTo(olds, st, target, junk, k).out|
    ensures Known(olds, st, TranslateMap.EmitUpTo(olds, st, target, junk, k).out, k, p)
    decreases k
  {
    hide TranslateMap.CombinedEntry, TranslateMap.OldEntry, TranslateMap.EmitUpTo;
    TranslateMap.AllPlaced(olds, st, target, junk, k);
    if k > 0 {
      var e := TranslateMap.EmitUpTo(olds, st, target, junk, k - 1);
      TranslateMap.EmitMore(olds, st, target, junk, k - 1);
      TranslateMap.AllPlaced(olds, st, target, junk, k - 1);
      if p < |e.out| {
        AllKnown(olds, st, target, junk, k - 1, p);
      } else if p == |TranslateMap.Step(olds, st, target, e, k - 1).out| - 1 {
        assert p == TranslateMap.Position(st.memberOf, k - 1);
      }
    }
  }

  /** Every pointer that is mapped with its pointee shares a base with another entry, and the pointee is not empty. */
  predicate PointersGrouped(olds: seq<Grouping.Old>) {
    forall i :: 0 <= i < |olds| && olds[i].ty.mapPtr && !olds[i].ty.privatePtr && !olds[i].ty.privateVal ==>
      TranslateMap.MemberOf(olds)[i] != Grouping.NO_GROUP && olds[i].size > 0
  }

  /** The old list's groups are in creation order, and the indices of the new list fit their field. */
  ghost predicate Translates(olds: seq<Grouping.Old>, target: bool, junk: seq<int>) {
    && |junk| == |Grouping.Groups(olds, |olds|).groups|
    && TranslateMap.InOrder(TranslateMap.MemberOf(olds))
    && |TranslateMap.Translated(olds, target, junk)| <= 0x8000
  }

  function NewArgs(olds: seq<Grouping.Old>, target: bool, junk: seq<int>): seq<Arg>
    requires |junk| == |Grouping.Groups(olds, |olds|).groups|
  {
    ArgsOf(TranslateMap.Translated(olds, target, junk))
  }

  lemma CombinedIsAnchored(g: Grouping.Group)
    ensures var a := ArgOf(TranslateMap.CombinedEntry(g));
      !a.ty.IsMember() && !a.ty.ptrAndObj && !a.ty.Skipped() && !a.ty.implicit
  {
  }

  /** How an old entry reads in the new list. */
  lemma OldArg(olds: seq<Grouping.Old>, target: bool, junk: seq<int>, i: nat)
    requires Translates(olds, target, junk) && i < |olds|
    ensures var args, p := NewArgs(olds, target, junk), TranslateMap.Position(TranslateMap.MemberOf(olds), i);
      && p < |args|
      && args[p].base == olds[i].base && args[p].begin == olds[i].begin && args[p].size == olds[i].size
      && args[p].ty.ptrAndObj == olds[i].ty.mapPtr && !args[p].ty.implicit
      && args[p].ty.Skipped() == (olds[i].ty.privatePtr || olds[i].ty.privateVal)
  {
    hide Grouping.Groups, TranslateMap.Translated, TranslateMap.Position, TranslateMap.InOrder, Grouping.HasPointee,
      TranslateMap.DecodeMember, TranslateMap.NextCid;
    TranslateMap.OldEntriesAreKept(olds, target, junk, i);
  }

  lemma NoMember()
    ensures TranslateMap.DecodeMember(0) < 0
  {
  }

  /** A group's member names its combined entry, which holds what the member brings. */
  lemma OldParent(olds: seq<Grouping.Old>, target: bool, junk: seq<int>, i: nat)
    requires Translates(olds, target, junk) && i < |olds|
    ensures var args, p := NewArgs(olds, target, junk), TranslateMap.Position(TranslateMap.MemberOf(olds), i);
      && p < |args|
      && args[p].ty.memberOf <= p
      && (args[p].ty.IsMember() <==> TranslateMap.MemberOf(olds)[i] != Grouping.NO_GROUP)
      && (args[p].ty.IsMember() ==>
            var parent, part := args[args[p].ty.memberOf - 1], GroupCover.Part(olds, i);
            && !parent.ty.Skipped()
            && parent.begin == TranslateMap.CombinedEntry(
                 Grouping.Groups(olds, |olds|).groups[TranslateMap.MemberOf(olds)[i]]).begin
            && parent.begin <= part.begin && (part.begin < part.end ==> part.end <= parent.begin + parent.size))
  {
    hide Grouping.Groups, TranslateMap.Translated, TranslateMap.Position, TranslateMap.CombinedEntry,
      TranslateMap.InOrder, TranslateMap.NextCid, TranslateMap.DecodeMember, GroupCover.Part;
    NoMember();
    OldArg(olds, target, junk, i);
    assert TranslateMap.Position(TranslateMap.MemberOf(olds), i) < 0x8000;
    TranslateMap.MembersAreCovered(olds, target, junk, i);
    if TranslateMap.MemberOf(olds)[i] != Grouping.NO_GROUP {
      CombinedIsAnchored(Grouping.Groups(olds, |olds|).groups[TranslateMap.MemberOf(olds)[i]]);
    }
  }

  /** The struct whose count decides about a member is the combined entry of the member's group. */
  lemma MemberNamesItsGroup(olds: seq<Grouping.Old>, target: bool, junk: seq<int>, i: nat)
    requires Translates(olds, target, junk) && PointersGrouped(olds)
    requires i < |olds| && TranslateMap.MemberOf(olds)[i] != Grouping.NO_GROUP
    ensures var args, p := NewArgs(olds, target, junk), TranslateMap.Position(TranslateMap.MemberOf(olds), i);
      && WellFormed(args) && p < |args|
      && Resolve(args, p).arg == args[p]
      && Resolve(args, p).parent == TranslateMap.CombinedEntry(
           Grouping.Groups(olds, |olds|).groups[TranslateMap.MemberOf(olds)[i]]).begin
  {
    hide NewArgs, PointersGrouped, TranslateMap.Position, TranslateMap.CombinedEntry, GroupCover.Part, TranslateMap.InOrder,
      TranslateMap.Translated, Anchored;
    var args := NewArgs(olds, target, junk);
    forall p | 0 <= p < |args|
      ensures args[p].ty.memberOf <= |args|
    {
      TranslatedIsAnchored(olds, target, junk, p);
    }
    OldParent(olds, target, junk, i);
  }

  /** What a member brings begins where its slot or its range does. */
  lemma PartBegins(olds: seq<Grouping.Old>, i: nat)
    requires i < |olds| && olds[i].size > 0
    ensures var part := GroupCover.Part(olds, i);
      part.begin == (if olds[i].ty.mapPtr then olds[i].base else olds[i].begin) < part.end
  {
    hide Grouping.IsRoot;
  }

  lemma OldIsAnchored(olds: seq<Grouping.Old>, target: bool, junk: seq<int>, i: nat)
    requires Translates(olds, target, junk) && PointersGrouped(olds) && i < |olds|
    ensures var args, p := NewArgs(olds, target, junk), TranslateMap.Position(TranslateMap.MemberOf(olds), i);
      p < |args| && args[p].ty.memberOf <= p && Anchored(args, p)
  {
    hide NewArgs, TranslateMap.Position, GroupCover.Part, TranslateMap.MemberOf, TranslateMap.InOrder,
      TranslateMap.Translated;
    OldArg(olds, target, junk, i);
    OldParent(olds, target, junk, i);
    if olds[i].size > 0 {
      PartBegins(olds, i);
    }
  }

  lemma TranslatedIsAnchored(olds: seq<Grouping.Old>, target: bool, junk: seq<int>, p: nat)
    requires Translates(olds, target, junk) && PointersGrouped(olds) && p < |NewArgs(olds, target, junk)|
    ensures Anchored(NewArgs(olds, target, junk), p)
    ensures NewArgs(olds, target, junk)[p].ty.memberOf <= p
  {
    hide Grouping.Groups, TranslateMap.EmitUpTo, TranslateMap.Position, TranslateMap.CombinedEntry, TranslateMap.InOrder,
      PointersGrouped, ArgOf;
    var st := Grouping.Groups(olds, |olds|);
    AllKnown(olds, st, target, junk, |olds|, p);
    if c :| 0 <= c < |st.groups| && TranslateMap.Translated(olds, target, junk)[p] == TranslateMap.CombinedEntry(st.groups[c]) {
      CombinedIsAnchored(st.groups[c]);
    } else {
      var i: nat :| i < |olds| && p == TranslateMap.Position(st.memberOf, i);
      OldIsAnchored(olds, target, junk, i);
    }
  }

  /**
   * A target region over a translated list, its requests granted and every pointer grouped, gives
   * back exactly what it takes: the table comes back, list order and device blocks included.
   */
  lemma TranslatedRegionIsBalanced(
    olds: seq<Grouping.Old>, target: bool, junk: seq<int>, s: State, cs: seq<Choice>, ks: seq<Store>
  )
    requires Translates(olds, target, junk) && PointersGrouped(olds)
    requires |cs| == |NewArgs(olds, target, junk)|
    ensures WellFormed(NewArgs(olds, target, junk))
    ensures var p := RegionFrom(NewArgs(olds, target, junk), cs, Kernel(ks), 0);
      GrantedProg(s, p) ==> BalancedProg(s, p) && (Positive(s.m.table) ==> Exec(s, p).m == s.m)
  {
    hide PointersGrouped, NewArgs, TranslateMap.InOrder, GrantedProg, BalancedProg, Exec, Anchored;
    var args := NewArgs(olds, target, junk);
    forall p | 0 <= p < |args|
      ensures Anchored(args, p) && args[p].ty.memberOf <= p
    {
      TranslatedIsAnchored(olds, target, junk, p);
    }
    var region := RegionFrom(args, cs, Kernel(ks), 0);
    if GrantedProg(s, region) {
      AnchoredRegionIsBalanced(s, args, cs, ks, 0);
      if Positive(s.m.table) {
        TableRestoredIffBalanced(s, region);
      }
    }
  }
}
