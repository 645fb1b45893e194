/** target_data_begin, target_data_end and the data side of target, on the device object. */
module DataRegion {
  import opened Memory
  import opened MappingTable
  import opened Device
  import opened TargetData
  import opened TableRestored
  import opened TableGrows
  import opened DeviceMirror
  import opened HostRestored
  import opened OffloadMeaning

  ghost function Snapshot(d: DeviceTy, h: HostMemory): State
    reads d, h
  {
    State(d.Mapping(), d.mem, d.shadow, h.bytes)
  }

  /** One round of the loop of target_data_begin. */
  method BeginOne(d: DeviceTy, h: HostMemory, it: Item, c: Choice)
    modifies d
    ensures Snapshot(d, h) == BeginItem(old(Snapshot(d, h)), it, c)
  {
    hide GetOrAlloc, RefCnt, Copy, Image, Value, LoadWord, StoreWord;
    var a := it.arg;
    if a.ty.literal || a.ty.isPrivate {
      return;
    }
    var hstBase, slotTp := a.base, 0;
    var update := !a.ty.IsMember();
    if a.ty.ptrAndObj {
      var slotIsNew;
      slotTp, slotIsNew := d.GetOrAllocTgtPtr(a.base, a.base, PTR_SIZE, a.ty.implicit, update, c.slotAddr);
      hstBase := Value(LoadWord(h.bytes, a.base));
      update := true;
    }
    ghost var slot := ObtainSlot(old(d.Mapping()), a, c);
    assert d.Mapping() == slot.m && (a.ty.ptrAndObj ==> slotTp == slot.tp);
    var tp, isNew := d.GetOrAllocTgtPtr(a.begin, hstBase, a.size, a.ty.implicit, update, c.objAddr);
    ghost var obj := ObtainObj(slot.m, h.bytes, a, c);
    assert obj == Obtained(d.Mapping(), tp, isNew);
    var copy := false;
    if a.ty.to {
      if isNew.Fresh? || (isNew.Unset? && c.junk) || a.ty.always {
        copy := true;
      } else if a.ty.IsMember() {
        var parentRc := d.GetMapEntryRefCnt(it.parent);
        copy := parentRc == 1;
      }
    }
    assert copy == CopiesIn(obj, it, c);
    if copy {
      d.mem := Copy(d.mem, tp, h.bytes, a.begin, a.size);
    }
    if a.ty.ptrAndObj {
      var tgtBase := Image(tp - (a.begin - hstBase));
      d.mem := StoreWord(d.mem, slotTp, tgtBase);
      d.shadow := d.shadow[a.base := Shadow(LoadWord(h.bytes, a.base), slotTp, tgtBase)];
    }
  }

  method TargetDataBegin(d: DeviceTy, h: HostMemory, args: seq<Arg>, cs: seq<Choice>)
    requires WellFormed(args) && |cs| == |args|
    modifies d
    ensures Snapshot(d, h) == BeginFrom(old(Snapshot(d, h)), args, cs, 0)
  {
    for i := 0 to |args|
      invariant BeginFrom(Snapshot(d, h), args, cs, i) == BeginFrom(old(Snapshot(d, h)), args, cs, 0)
      invariant h.bytes == old(h.bytes)
    {
      BeginOne(d, h, Resolve(args, i), cs[i]);
    }
  }

  /** The walk over the shadow pointers whose host address lies in [lo, lo + n). */
  method VisitShadows(d: DeviceTy, h: HostMemory, lo: int, n: nat, restore: bool, remove: bool)
    modifies d`shadow, h`bytes
    ensures h.bytes == if restore then Restore(old(h.bytes), old(d.shadow), lo, n) else old(h.bytes)
    ensures d.shadow == if remove then Forget(old(d.shadow), lo, n) else old(d.shadow)
  {
    for i := 0 to n
      invariant h.bytes == if restore then Restore(old(h.bytes), old(d.shadow), lo, i) else old(h.bytes)
      invariant d.shadow == if remove then Forget(old(d.shadow), lo, i) else old(d.shadow)
    {
      var k := lo + i;
      if k in d.shadow {
        if restore {
          h.bytes := StoreWord(h.bytes, k, d.shadow[k].hstVal);
        }
        if remove {
          d.shadow := d.shadow - {k};
        }
      }
    }
  }

  /** Only an argument with DELETE whose range is not mapped at all has nothing to give up. */
  predicate EndSucceeds(m: Mapping, a: Arg) {
    a.ty.Skipped() || a.ty.IsPlainMember() || !a.ty.delete || !Unmapped(m.table, a.begin, a.size)
  }

  /** What an ending lookup found is there to be released. */
  lemma ReleasedIffMapped(m: Mapping, a: Arg, force: bool)
    ensures Dealloc(LookupForEnd(m, a).m, a.begin, a.size, force).ok <==> !Unmapped(m.table, a.begin, a.size)
    ensures LookupForEnd(m, a).isLast ==> !Unmapped(m.table, a.begin, a.size)
  {
    var t, t' := m.table, LookupForEnd(m, a).m.table;
    SameRangesSameHit(t, t', a.begin, a.size);
  }

  /** Whether all the arguments down to i end well. */
  function EndsSucceed(s: State, args: seq<Arg>, i: nat): bool
    requires WellFormed(args) && i <= |args|
    decreases |args| - i
  {
    i == |args| || (EndsSucceed(s, args, i + 1) && EndSucceeds(EndDownTo(s, args, i + 1).m, args[i]))
  }

  /** One round of the loop of target_data_end. */
  method EndOne(d: DeviceTy, h: HostMemory, it: Item) returns (ok: bool)
    modifies d, h
    ensures Snapshot(d, h) == EndItem(old(Snapshot(d, h)), it)
    ensures ok <==> EndSucceeds(old(d.Mapping()), it.arg)
  {
    hide GetTgtPtr, Dealloc, RefCnt, Copy, Restore, Forget;
    ok := true;
    var a := it.arg;
    if a.ty.literal || a.ty.isPrivate {
      return;
    }
    var update := !a.ty.IsMember() || a.ty.ptrAndObj;
    var tp, isLast := d.GetTgtPtrBegin(a.begin, a.size, update);
    var del := isLast || a.ty.delete;
    if a.ty.IsMember() && !a.ty.ptrAndObj {
      del := false;
    }
    ghost var l := LookupForEnd(old(d.Mapping()), a);
    assert l == Looked(d.Mapping(), tp, isLast) && del == Deletes(l, a);
    if a.ty.from || del {
      if a.ty.from {
        var copyMember := false;
        if a.ty.IsMember() && !a.ty.ptrAndObj {
          var parentRc := d.GetMapEntryRefCnt(it.parent);
          copyMember := parentRc == 1;
        }
        assert (del || a.ty.always || copyMember) == CopiesOut(l, it);
        if del || a.ty.always || copyMember {
          h.bytes := Copy(h.bytes, a.begin, d.mem, tp, a.size);
        }
      }
      VisitShadows(d, h, a.begin, a.size, a.ty.from, del);
      if del {
        ReleasedIffMapped(old(d.Mapping()), a, a.ty.delete);
        ok := d.DeallocTgtPtr(a.begin, a.size, a.ty.delete);
      }
    }
  }

  method TargetDataEnd(d: DeviceTy, h: HostMemory, args: seq<Arg>) returns (ok: bool)
    requires WellFormed(args)
    modifies d, h
    ensures Snapshot(d, h) == EndDownTo(old(Snapshot(d, h)), args, 0)
    ensures ok <==> EndsSucceed(old(Snapshot(d, h)), args, 0)
  {
    hide EndSucceeds, EndItem;
    ok := true;
    var i := |args|;
    while i > 0
      invariant 0 <= i <= |args|
      invariant Snapshot(d, h) == EndDownTo(old(Snapshot(d, h)), args, i)
      invariant ok <==> EndsSucceed(old(Snapshot(d, h)), args, i)
    {
      i := i - 1;
      var rt := EndOne(d, h, Resolve(args, i));
      ok := ok && rt;
    }
  }

  lemma {:induction false} NoDeleteSucceeds(s: State, args: seq<Arg>, i: nat)
    requires WellFormed(args) && i <= |args| && forall j :: 0 <= j < |args| ==> !args[j].ty.delete
    ensures EndsSucceed(s, args, i)
    decreases |args| - i
  {
    hide EndDownTo;
    if i < |args| {
      NoDeleteSucceeds(s, args, i + 1);
    }
  }

  lemma {:induction false} RegionOnHost(h: Mem, args: seq<Arg>, cs: seq<Choice>, ks: seq<Store>, i: nat)
    requires WellFormed(args) && |cs| == |args| && i <= |args|
    ensures OnHost(h, RegionFrom(args, cs, Kernel(ks), i)) == RunKernel(h, [], ks)
    decreases |args| - i
  {
    if i < |args| {
      RegionOnHost(h, args, cs, ks, i + 1);
    }
  }

  /**
   * The data side of target around a kernel. If all requests are granted the mapping table comes
   * back, list order and device blocks included, exactly when the arguments are balanced. Around
   * a kernel that changes nothing host memory is as before if no slot straddles a FROM range. And
   * with data shared both ways the view of memory changes as if the kernel had run on the host.
   */
  method Target(d: DeviceTy, h: HostMemory, args: seq<Arg>, cs: seq<Choice>, ks: seq<Store>) returns (ok: bool)
    requires WellFormed(args) && |cs| == |args|
    modifies d, h
    ensures Snapshot(d, h) == Exec(old(Snapshot(d, h)), RegionFrom(args, cs, Kernel(ks), 0))
    ensures (forall i :: 0 <= i < |args| ==> !args[i].ty.delete) ==> ok
    ensures var s, p := old(Snapshot(d, h)), RegionFrom(args, cs, Kernel(ks), 0);
      && (Positive(s.m.table) && GrantedProg(s, p) ==> (d.Mapping() == s.m <==> BalancedProg(s, p)))
      && (Inv(s.m) && ShadowsAgree(s.shadow, s.host) && FaithfulProg(s, p) && NoStraddle(p) ==>
            Inv(d.Mapping()) && SameBytes(h.bytes, s.host) && ShadowsAgree(d.shadow, h.bytes))
      && (Inv(s.m) && s.shadow == map[] && Shares(s, p) ==>
            SameBytes(View(Snapshot(d, h)), RunKernel(View(s), [], ks)))
  {
    hide BeginItem, EndItem, RunKernel, EndsSucceed;
    ghost var s, p := Snapshot(d, h), RegionFrom(args, cs, Kernel(ks), 0);
    TargetDataBegin(d, h, args, cs);
    d.mem := RunKernel(d.mem, d.table, ks);
    if forall i :: 0 <= i < |args| ==> !args[i].ty.delete {
      NoDeleteSucceeds(Snapshot(d, h), args, 0);
    }
    ok := TargetDataEnd(d, h, args);
    RegionIsBeginBodyEnd(s, args, cs, Kernel(ks), 0);
    if Positive(s.m.table) && GrantedProg(s, p) {
      TableRestoredIffBalanced(s, p);
    }
    if Inv(s.m) && ShadowsAgree(s.shadow, s.host) && FaithfulProg(s, p) && NoStraddle(p) {
      RegionsKeepHost(s, p);
    }
    if Inv(s.m) && s.shadow == map[] && Shares(s, p) {
      RegionsAreTransparent(s, p);
      RegionOnHost(View(s), args, cs, ks, 0);
    }
  }
}
