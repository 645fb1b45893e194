/**
 * Which bytes move at the begin and at the end of an argument, for any device memory: said of
 * entries, counts and addresses only.
 */
module Transfers {
  import opened Memory
  import opened MappingTable
  import opened Device
  import opened TargetData
  import opened TableRestored
  import opened TableGrows
  import opened DeviceMirror
  import opened HostRestored

  // ----------------------------------------------------------- vocabulary

  /** The entry and [lo, lo + n) have a byte in common. */
  predicate Overlaps(e: Entry, lo: int, n: nat) {
    e.begin < lo + n && lo < e.end
  }

  ghost predicate Touched(t: seq<Entry>, lo: int, n: nat) {
    exists i :: 0 <= i < |t| && Overlaps(t[i], lo, n)
  }

  /** Device address d is where the entry of host byte b places it. */
  ghost predicate OnDevice(t: seq<Entry>, b: int, d: int) {
    exists i :: 0 <= i < |t| && t[i].begin <= b < t[i].end && d == t[i].tgt + (b - t[i].begin)
  }

  /** The entry of host byte b has rc references. */
  ghost predicate Counted(t: seq<Entry>, b: int, rc: int) {
    exists i :: 0 <= i < |t| && t[i].begin <= b < t[i].end && t[i].rc == rc
  }

  lemma {:induction false} CountedIff(t: seq<Entry>, b: int)
    requires ValidTable(t)
    ensures RefCnt(t, b) == 1 <==> Counted(t, b, 1)
  {
    if RefCnt(t, b) != -1 {
      var i := CountNamesAnEntry(t, b);
      CountOfContaining(t, b, i);
    }
    if Counted(t, b, 1) {
      var i :| 0 <= i < |t| && t[i].begin <= b < t[i].end && t[i].rc == 1;
      CountOfContaining(t, b, i);
    }
  }

  /** A byte has one place on the device. */
  lemma OnePlace(t: seq<Entry>, b: int, d: int, e: int)
    requires ValidTable(t) && OnDevice(t, b, d) && OnDevice(t, b, e)
    ensures d == e
  {
    var i :| 0 <= i < |t| && t[i].begin <= b < t[i].end && d == t[i].tgt + (b - t[i].begin);
    var j :| 0 <= j < |t| && t[j].begin <= b < t[j].end && e == t[j].tgt + (b - t[j].begin);
    assert i < j ==> Separate(t[i], t[j]);
    assert j < i ==> Separate(t[j], t[i]);
  }

  lemma MappedPlace(t: seq<Entry>, lo: int, n: nat, off: int, b: int)
    requires MappedAt(t, lo, lo, n, off) && (lo <= b < lo + n || b == lo)
    ensures OnDevice(t, b, b + off)
  {
    var i :| 0 <= i < |t| && Places(t[i], lo, lo, n, off);
    assert t[i].begin <= b < t[i].end && b + off == t[i].tgt + (b - t[i].begin);
  }

  lemma HitIffOverlaps(e: Entry, lo: int, n: nat)
    requires e.begin < e.end && n > 0
    ensures Hit(e, lo, n) <==> Overlaps(e, lo, n)
  {
  }

  // ------------------------------------------------------------- the begin

  /** Some byte of the range was mapped before, or is part of the argument's own pointer slot. */
  ghost predicate WasThere(s: State, a: Arg) {
    || Touched(s.m.table, a.begin, a.size)
    || (a.ty.ptrAndObj && a.base < a.begin + a.size && a.begin < a.base + PTR_SIZE)
  }

  /** Which begins send the range to the device; s' is the state after it. */
  ghost predicate Sends(s: State, s': State, it: Item) {
    && it.arg.ty.to
    && (|| !WasThere(s, it.arg)
        || it.arg.ty.always
        || (it.arg.ty.memberOf != 0 && Counted(s'.m.table, it.parent, 1)))
  }

  /** Device address d is part of the argument's pointer slot. */
  ghost predicate InSlot(t: seq<Entry>, a: Arg, d: int) {
    a.ty.ptrAndObj && exists b :: a.base <= b < a.base + PTR_SIZE && OnDevice(t, b, d)
  }

  lemma TouchedIffHit(t: seq<Entry>, lo: int, n: nat)
    requires ValidTable(t) && n > 0
    ensures Touched(t, lo, n) <==> FirstHit(t, lo, n) < |t|
  {
    var k := FirstHit(t, lo, n);
    if k < |t| {
      HitIffOverlaps(t[k], lo, n);
    }
    if Touched(t, lo, n) {
      var i :| 0 <= i < |t| && Overlaps(t[i], lo, n);
      HitIffOverlaps(t[i], lo, n);
    }
  }

  /** A table with the same ranges, or with one more in front, is touched where those are. */
  lemma TouchedAfter(t: seq<Entry>, t': seq<Entry>, e: Entry, isNew: bool, lo: int, n: nat)
    requires if isNew then t' == [e] + t
             else |t'| == |t| && (forall i :: 0 <= i < |t| ==> t'[i].begin == t[i].begin && t'[i].end == t[i].end)
    ensures Touched(t', lo, n) <==> Touched(t, lo, n) || (isNew && Overlaps(e, lo, n))
  {
    var shift := if isNew then 1 else 0;
    if Touched(t, lo, n) {
      var i :| 0 <= i < |t| && Overlaps(t[i], lo, n);
      assert Overlaps(t'[i + shift], lo, n);
    }
    if Touched(t', lo, n) {
      var i :| 0 <= i < |t'| && Overlaps(t'[i], lo, n);
      assert i >= shift ==> Overlaps(t[i - shift], lo, n);
    }
    if isNew && Overlaps(e, lo, n) {
      assert Overlaps(t'[0], lo, n);
    }
  }

  lemma ContainedTouches(t: seq<Entry>, k: nat, lo: int, n: nat, hp: int, size: nat)
    requires k < |t| && Contained(t[k], lo, n) && lo < hp + size && hp < lo + n
    ensures Touched(t, hp, size)
  {
    assert Overlaps(t[k], hp, size);
  }

  /** With the slot obtained, what is mapped is what was and the slot. */
  lemma SlotAddsItself(m: Mapping, a: Arg, c: Choice)
    requires Inv(m) && WholeRequests(m, a, c) && !a.ty.Skipped() && a.size > 0
    ensures Touched(ObtainSlot(m, a, c).m.table, a.begin, a.size)
      <==> Touched(m.table, a.begin, a.size)
           || (a.ty.ptrAndObj && a.base < a.begin + a.size && a.begin < a.base + PTR_SIZE)
  {
    hide Touched, ValidTable, BlocksMatch;
    if a.ty.ptrAndObj {
      var t, t', k := m.table, ObtainSlot(m, a, c).m.table, FirstHit(m.table, a.base, PTR_SIZE);
      TouchedAfter(t, t', Entry(a.base, a.base, a.base + PTR_SIZE, c.slotAddr, 1), k == |t|, a.begin, a.size);
      if k < |t| && a.base < a.begin + a.size && a.begin < a.base + PTR_SIZE {
        ContainedTouches(t, k, a.base, PTR_SIZE, a.begin, a.size);
      }
    }
  }

  /** The copy of the begin is made exactly when the range is to be sent. */
  lemma CopiesIffSends(s: State, it: Item, c: Choice)
    requires Inv(s.m) && WholeRequests(s.m, it.arg, c) && !it.arg.ty.Skipped() && it.arg.size > 0
    ensures CopiesIn(Obj(s, it, c), it, c) <==> Sends(s, BeginItem(s, it, c), it)
    ensures !Obj(s, it, c).isNew.Unset?
  {
    hide Inv, ValidTable, Touched, WholeRequests, Whole, Counted, RefCnt;
    var a, slot := it.arg, ObtainSlot(s.m, it.arg, c);
    BeginKeepsTables(s, it, c);
    SplitInv(slot.m);
    SplitInv(BeginItem(s, it, c).m);
    SlotAddsItself(s.m, a, c);
    TouchedIffHit(slot.m.table, a.begin, a.size);
    CountedIff(BeginItem(s, it, c).m.table, it.parent);
    BeginTable(s, it, c);
    ObjIsMapped(s, it, c);
  }

  lemma BeginDevice(s: State, it: Item, c: Choice, d: int)
    requires !it.arg.ty.Skipped()
    ensures var tp := ObtainSlot(s.m, it.arg, c).tp;
      !(it.arg.ty.ptrAndObj && tp <= d < tp + PTR_SIZE) ==> BeginItem(s, it, c).dev(d) == AfterCopy(s, it, c)(d)
  {
  }

  lemma AfterCopyByte(s: State, it: Item, c: Choice, d: int)
    ensures var tp := Obj(s, it, c).tp;
      AfterCopy(s, it, c)(d) ==
        if CopiesIn(Obj(s, it, c), it, c) && tp <= d < tp + it.arg.size then s.host(it.arg.begin + (d - tp)) else s.dev(d)
  {
  }

  lemma OutsideSlot(s: State, it: Item, c: Choice, d: int)
    requires WholeRequests(s.m, it.arg, c) && !it.arg.ty.Skipped() && it.arg.ty.ptrAndObj
    requires !InSlot(BeginItem(s, it, c).m.table, it.arg, d)
    ensures var tp := ObtainSlot(s.m, it.arg, c).tp; !(tp <= d < tp + PTR_SIZE)
  {
    hide BeginItem, ObtainSlot, WholeRequests, MappedAt, OnDevice;
    BeginMaps(s, it, c);
    var tp, t', a := ObtainSlot(s.m, it.arg, c).tp, BeginItem(s, it, c).m.table, it.arg;
    if tp <= d < tp + PTR_SIZE {
      MappedPlace(t', a.base, PTR_SIZE, tp - a.base, a.base + (d - tp));
    }
  }

  /**
   * The begin of a granted argument: host byte b of its range is on the device afterwards at its
   * translation if the range was not mapped, or with ALWAYS, or for a member whose parent has one
   * reference; otherwise the device keeps what it had there. The attached pointer is aside.
   */
  lemma RangeIsSent(s: State, it: Item, c: Choice, b: int, d: int)
    requires Inv(s.m) && WholeRequests(s.m, it.arg, c) && !it.arg.ty.Skipped()
    requires it.arg.begin <= b < it.arg.begin + it.arg.size
    ensures var s' := BeginItem(s, it, c);
      && OnDevice(s'.m.table, b, b + (Obj(s, it, c).tp - it.arg.begin))
      && (OnDevice(s'.m.table, b, d) && !InSlot(s'.m.table, it.arg, d) ==>
            s'.dev(d) == if Sends(s, s', it) then s.host(b) else s.dev(d))
  {
    hide BeginItem, ObtainSlot, WholeRequests, MappedAt, OnDevice, InSlot, Inv, ValidTable, Obj, CopiesIn, Sends, AfterCopy;
    var a, s', tp := it.arg, BeginItem(s, it, c), Obj(s, it, c).tp;
    CopiesIffSends(s, it, c);
    BeginMaps(s, it, c);
    MappedPlace(s'.m.table, a.begin, a.size, tp - a.begin, b);
    if OnDevice(s'.m.table, b, d) && !InSlot(s'.m.table, it.arg, d) {
      BeginKeepsTables(s, it, c);
      SplitInv(s'.m);
      OnePlace(s'.m.table, b, d, b + (tp - a.begin));
      if a.ty.ptrAndObj {
        OutsideSlot(s, it, c, d);
      }
      BeginDevice(s, it, c, d);
      AfterCopyByte(s, it, c, d);
    }
  }

  /** What one request of a begin does to the table. */
  ghost predicate Requested(t: seq<Entry>, base: int, lo: int, n: nat, counts: bool, addr: int, t': seq<Entry>) {
    if Touched(t, lo, n) then
      forall i: nat :: FirstTouched(t, lo, n, i) ==> t' == t[i := t[i].(rc := t[i].rc + if counts then 1 else 0)]
    else
      t' == [Entry(base, lo, lo + n, addr, 1)] + t
  }

  lemma RequestIs(m: Mapping, hp: int, base: int, size: nat, implicit: bool, update: bool, addr: int)
    requires ValidTable(m.table) && NotPartial(m.table, hp, size) && size > 0
    ensures Requested(m.table, base, hp, size, update, addr, GetOrAlloc(m, hp, base, size, implicit, update, addr).m.table)
  {
    TouchedIffHit(m.table, hp, size);
    forall i: nat | FirstTouched(m.table, hp, size, i)
      ensures i == FirstHit(m.table, hp, size) < |m.table|
    {
      FirstTouchedIs(m.table, hp, size, i);
    }
  }

  /**
   * The begin's requests: the slot of an attached pointer first, counted unless the argument is a
   * member, then the range, counted unless it is a plain member; what is not mapped gets an entry
   * of its own in front, with one reference.
   */
  lemma ReferencesAreTaken(s: State, it: Item, c: Choice)
    requires Inv(s.m) && WholeRequests(s.m, it.arg, c) && !it.arg.ty.Skipped() && it.arg.size > 0
    ensures var a, t, t' := it.arg, s.m.table, BeginItem(s, it, c).m.table;
      if a.ty.ptrAndObj then
        exists u :: Requested(t, a.base, a.base, PTR_SIZE, a.ty.memberOf == 0, c.slotAddr, u)
          && Requested(u, Value(LoadWord(s.host, a.base)), a.begin, a.size, true, c.objAddr, t')
      else Requested(t, a.base, a.begin, a.size, a.ty.memberOf == 0, c.objAddr, t')
  {
    hide Requested, Value, LoadWord, Touched, Inv, ValidTable;
    var a, slot := it.arg, ObtainSlot(s.m, it.arg, c);
    BeginKeepsTables(s, it, c);
    SplitInv(s.m);
    SplitInv(slot.m);
    if a.ty.ptrAndObj {
      RequestIs(s.m, a.base, a.base, PTR_SIZE, a.ty.implicit, !a.ty.IsMember(), c.slotAddr);
    }
    RequestIs(slot.m, a.begin, ObjBase(s.host, a), a.size, a.ty.implicit, !a.ty.IsPlainMember(), c.objAddr);
    BeginTable(s, it, c);
  }

  /** A device byte that is neither of the range nor of the slot stays as it was, and host memory does. */
  lemma NothingElseIsSent(s: State, it: Item, c: Choice, d: int)
    requires Inv(s.m) && WholeRequests(s.m, it.arg, c) && !it.arg.ty.Skipped()
    requires var t' := BeginItem(s, it, c).m.table;
      !InSlot(t', it.arg, d) && forall b :: it.arg.begin <= b < it.arg.begin + it.arg.size ==> !OnDevice(t', b, d)
    ensures BeginItem(s, it, c).dev(d) == s.dev(d)
    ensures BeginItem(s, it, c).host == s.host
  {
    hide ObtainSlot, WholeRequests, MappedAt, OnDevice, InSlot, Inv, Obj, CopiesIn, AfterCopy;
    var a, t', tp := it.arg, BeginItem(s, it, c).m.table, Obj(s, it, c).tp;
    if a.ty.ptrAndObj {
      OutsideSlot(s, it, c, d);
    }
    BeginDevice(s, it, c, d);
    AfterCopyByte(s, it, c, d);
    if tp <= d < tp + a.size {
      CopiesIffSends(s, it, c);
      BeginMaps(s, it, c);
      MappedPlace(t', a.begin, a.size, tp - a.begin, a.begin + (d - tp));
    }
  }

  /** Where the range is on the device; a pointee that is not mapped at all counts as null. */
  ghost predicate RangeAt(t: seq<Entry>, a: Arg, d: int) {
    if Touched(t, a.begin, 1) then OnDevice(t, a.begin, d) else d == 0
  }

  lemma RangeIsAt(s: State, it: Item, c: Choice)
    requires Inv(s.m) && WholeRequests(s.m, it.arg, c) && !it.arg.ty.Skipped()
    ensures RangeAt(BeginItem(s, it, c).m.table, it.arg, Obj(s, it, c).tp)
  {
    var a, t', obj := it.arg, BeginItem(s, it, c).m.table, Obj(s, it, c);
    BeginMaps(s, it, c);
    BeginTable(s, it, c);
    if obj.isNew.Unset? {
      assert FirstHit(t', a.begin, 0) == |t'|;
      forall i | 0 <= i < |t'|
        ensures !Overlaps(t'[i], a.begin, 1)
      {
        assert !Hit(t'[i], a.begin, 0);
      }
    } else {
      MappedPlace(t', a.begin, a.size, obj.tp - a.begin, a.begin);
      var i :| 0 <= i < |t'| && t'[i].begin <= a.begin < t'[i].end;
      assert Overlaps(t'[i], a.begin, 1);
    }
  }

  /**
   * The attached pointer: on the device it lies as far from the range as the host's pointer does
   * from the host's range, and the shadow holds the host's pointer and the device's.
   */
  lemma PointerIsAttached(s: State, it: Item, c: Choice) returns (slot: int, range: int)
    requires Inv(s.m) && WholeRequests(s.m, it.arg, c) && !it.arg.ty.Skipped() && it.arg.ty.ptrAndObj
    ensures var s', hst := BeginItem(s, it, c), LoadWord(s.host, it.arg.base);
      && OnDevice(s'.m.table, it.arg.base, slot)
      && RangeAt(s'.m.table, it.arg, range)
      && Value(LoadWord(s'.dev, slot)) == (range + (Value(hst) - it.arg.begin)) % 0x1_0000_0000_0000_0000
      && s'.shadow == s.shadow[it.arg.base := Shadow(hst, slot, LoadWord(s'.dev, slot))]
  {
    hide WholeRequests, MappedAt, OnDevice, Inv, RangeAt, Value, Image;
    slot, range := ObtainSlot(s.m, it.arg, c).tp, Obj(s, it, c).tp;
    var a, hst := it.arg, LoadWord(s.host, it.arg.base);
    BeginMaps(s, it, c);
    MappedPlace(BeginItem(s, it, c).m.table, a.base, PTR_SIZE, slot - a.base, a.base);
    RangeIsAt(s, it, c);
    var v := range - (a.begin - Value(hst));
    ValueOfImage(v);
    assert LoadWord(BeginItem(s, it, c).dev, slot) == Image(v) by {
      WordIsStored(AfterCopy(s, it, c), slot, Image(v));
    }
  }

  lemma WordIsStored(m: Mem, a: int, w: Word)
    ensures LoadWord(StoreWord(m, a, w), a) == w
  {
  }

  /** Without a pointer to attach shadows stay as they were. */
  lemma NothingIsAttached(s: State, it: Item, c: Choice)
    requires it.arg.ty.Skipped() || !it.arg.ty.ptrAndObj
    ensures BeginItem(s, it, c).shadow == s.shadow
  {
  }

  /**
   * A request that would extend a mapped range is refused, and the source goes on with a null
   * device address and an IsNew that nobody has set: the range is sent to address 0 if IsNew
   * happens to hold true, or with ALWAYS, or for a member whose parent has one reference.
   */
  lemma RefusedIsSentToNull(s: State, it: Item, c: Choice, i: nat, d: int)
    requires ValidTable(s.m.table) && !it.arg.ty.Skipped() && !it.arg.ty.ptrAndObj && !it.arg.ty.implicit
    requires it.arg.size > 0 && FirstTouched(s.m.table, it.arg.begin, it.arg.size, i)
    requires !(s.m.table[i].begin <= it.arg.begin && it.arg.begin + it.arg.size <= s.m.table[i].end)
    ensures var a, s' := it.arg, BeginItem(s, it, c);
      && s'.m == s.m && s'.host == s.host && s'.shadow == s.shadow
      && s'.dev(d) ==
           if a.ty.to && (c.junk || a.ty.always || (a.ty.memberOf != 0 && Counted(s.m.table, it.parent, 1))) && 0 <= d < a.size
           then s.host(a.begin + d) else s.dev(d)
  {
    FirstTouchedIs(s.m.table, it.arg.begin, it.arg.size, i);
    CountedIff(s.m.table, it.parent);
  }

  // --------------------------------------------------------------- the end

  /** Entry i is the first of the list that has a byte in common with the range. */
  ghost predicate FirstTouched(t: seq<Entry>, lo: int, n: nat, i: nat) {
    i < |t| && Overlaps(t[i], lo, n) && forall j :: 0 <= j < i ==> !Overlaps(t[j], lo, n)
  }

  /** The argument gives its entry up: the last reference, or DELETE, but never for a plain member. */
  ghost predicate GivesUp(t: seq<Entry>, a: Arg) {
    && (a.ty.memberOf == 0 || a.ty.ptrAndObj)
    && (a.ty.delete || exists i: nat :: FirstTouched(t, a.begin, a.size, i) && t[i].rc == 1)
  }

  /** Which ends bring the range back to the host. */
  ghost predicate BringsBack(s: State, it: Item) {
    && it.arg.ty.from
    && (|| GivesUp(s.m.table, it.arg)
        || it.arg.ty.always
        || (it.arg.ty.memberOf != 0 && !it.arg.ty.ptrAndObj && Counted(s.m.table, it.parent, 1)))
  }

  lemma FirstTouchedIs(t: seq<Entry>, lo: int, n: nat, i: nat)
    requires ValidTable(t) && n > 0
    ensures FirstTouched(t, lo, n, i) <==> i < |t| && FirstHit(t, lo, n) == i
  {
    forall j: nat | j < |t|
      ensures Hit(t[j], lo, n) <==> Overlaps(t[j], lo, n)
    {
      HitIffOverlaps(t[j], lo, n);
    }
  }

  lemma DeletesIffGivesUp(s: State, a: Arg)
    requires ValidTable(s.m.table) && a.size > 0
    ensures Deletes(LookupForEnd(s.m, a), a) <==> GivesUp(s.m.table, a)
  {
    var k := FirstHit(s.m.table, a.begin, a.size);
    if k < |s.m.table| {
      FirstTouchedIs(s.m.table, a.begin, a.size, k);
    }
    if i: nat :| FirstTouched(s.m.table, a.begin, a.size, i) && s.m.table[i].rc == 1 {
      FirstTouchedIs(s.m.table, a.begin, a.size, i);
    }
  }

  lemma CopiesIffBringsBack(s: State, it: Item)
    requires ValidTable(s.m.table) && it.arg.size > 0
    ensures CopiesOut(LookupForEnd(s.m, it.arg), it) <==> BringsBack(s, it)
  {
    hide GivesUp, RefCnt, Counted, ValidTable;
    DeletesIffGivesUp(s, it.arg);
    CountedIff(s.m.table, it.parent);
    if it.arg.ty.IsPlainMember() {
      PlainLookupKeeps(s.m, it.arg);
    }
  }

  /** Key k is the last of the range's shadows whose pointer covers byte b. */
  ghost predicate LastCovering(shadow: map<int, Shadow>, lo: int, n: nat, b: int, k: int) {
    && k in shadow && lo <= k < lo + n && k <= b < k + PTR_SIZE
    && forall j :: j in shadow && lo <= j < lo + n && j <= b < j + PTR_SIZE ==> j <= k
  }

  /** Each byte under a pointer of the range gets the last such pointer's, and no other byte changes. */
  lemma {:induction false} RestoredByte(h: Mem, shadow: map<int, Shadow>, lo: int, n: nat, b: int)
    ensures !Restores(shadow, lo, n, b) ==> Restore(h, shadow, lo, n)(b) == h(b)
    ensures forall k :: LastCovering(shadow, lo, n, b, k) ==> Restore(h, shadow, lo, n)(b) == shadow[k].hstVal[b - k]
    decreases n
  {
    hide StoreWord;
    if n > 0 {
      var last := lo + n - 1;
      RestoredByte(h, shadow, lo, n - 1, b);
      if last in shadow {
        WordAt(Restore(h, shadow, lo, n - 1), last, shadow[last].hstVal, b);
      }
      assert Restores(shadow, lo, n - 1, b) ==> Restores(shadow, lo, n, b);
      if last in shadow && last <= b < last + PTR_SIZE {
        assert Restores(shadow, lo, n, b);
      }
      forall k | LastCovering(shadow, lo, n, b, k)
        ensures Restore(h, shadow, lo, n)(b) == shadow[k].hstVal[b - k]
      {
        if k != last {
          assert LastCovering(shadow, lo, n - 1, b, k);
        }
      }
    }
  }

  lemma WordAt(m: Mem, a: int, w: Word, b: int)
    ensures StoreWord(m, a, w)(b) == if a <= b < a + PTR_SIZE then w[b - a] else m(b)
  {
  }

  /** Where the device address for byte b is taken from: the first entry touched, or null. */
  ghost predicate BroughtFrom(t: seq<Entry>, a: Arg, b: int, d: int) {
    if Touched(t, a.begin, a.size) then exists i: nat :: FirstTouched(t, a.begin, a.size, i) && d == t[i].tgt + (b - t[i].begin)
    else d == b - a.begin
  }

  lemma EndAddress(s: State, it: Item, b: int, d: int)
    requires ValidTable(s.m.table) && it.arg.size > 0 && BroughtFrom(s.m.table, it.arg, b, d)
    ensures d == b + EndOffset(s.m, it)
  {
    var a, t := it.arg, s.m.table;
    TouchedIffHit(t, a.begin, a.size);
    if Touched(t, a.begin, a.size) {
      var i: nat :| FirstTouched(t, a.begin, a.size, i) && d == t[i].tgt + (b - t[i].begin);
      FirstTouchedIs(t, a.begin, a.size, i);
    }
  }

  /**
   * The end of an argument, for any device memory and shadows: a host byte under no restored
   * pointer is the device's at its translation if the argument is FROM and holds the last
   * reference of its entry, or has DELETE or ALWAYS, or is a member whose parent has one
   * reference; otherwise it stays as it was.
   */
  lemma RangeIsBroughtBack(s: State, it: Item, b: int, d: int)
    requires ValidTable(s.m.table) && !it.arg.ty.Skipped()
    requires it.arg.ty.from ==> !Restores(s.shadow, it.arg.begin, it.arg.size, b)
    requires BroughtFrom(s.m.table, it.arg, b, d)
    ensures EndItem(s, it).host(b) ==
      if BringsBack(s, it) && it.arg.begin <= b < it.arg.begin + it.arg.size then s.dev(d) else s.host(b)
  {
    hide EndItem, Copy, LookupForEnd, Restore, Retrieved, Restores, BroughtFrom, BringsBack, CopiesOut, ValidTable, EndOffset;
    var a := it.arg;
    HostAtEnd(s, it);
    RetrievedByte(s, it, b);
    RestoredByte(Retrieved(s, it), s.shadow, a.begin, a.size, b);
    if a.size > 0 {
      CopiesIffBringsBack(s, it);
      EndAddress(s, it, b, d);
    }
  }

  lemma EndKeepsDevice(s: State, it: Item)
    ensures EndItem(s, it).dev == s.dev
  {
  }

  /** A host byte under pointers of the range is the last such pointer's of the host. */
  lemma PointerIsRestored(s: State, it: Item, b: int, k: int)
    requires !it.arg.ty.Skipped() && it.arg.ty.from && LastCovering(s.shadow, it.arg.begin, it.arg.size, b, k)
    ensures EndItem(s, it).host(b) == s.shadow[k].hstVal[b - k]
  {
    hide Retrieved, Restore;
    HostAtEnd(s, it);
    RestoredByte(Retrieved(s, it), s.shadow, it.arg.begin, it.arg.size, b);
  }

  /** What the end does to the table and to the shadows. */
  lemma EntryIsGivenUp(s: State, it: Item)
    requires ValidTable(s.m.table) && !it.arg.ty.Skipped() && it.arg.size > 0
    ensures var a, t, s' := it.arg, s.m.table, EndItem(s, it);
      && (forall i: nat :: FirstTouched(t, a.begin, a.size, i) ==>
            s'.m == if GivesUp(t, a) then Mapping(t[..i] + t[i + 1..], s.m.blocks - {t[i].tgt})
                    else if a.ty.memberOf != 0 && !a.ty.ptrAndObj then s.m
                    else s.m.(table := t[i := t[i].(rc := t[i].rc - 1)]))
      && (!Touched(t, a.begin, a.size) ==> s'.m == s.m)
      && (forall k :: k in s'.shadow <==> k in s.shadow && !(GivesUp(t, a) && a.begin <= k < a.begin + a.size))
      && (forall k :: k in s'.shadow ==> s'.shadow[k] == s.shadow[k])
  {
    hide GivesUp, Restore;
    var a, t := it.arg, s.m.table;
    DeletesIffGivesUp(s, a);
    TouchedIffHit(t, a.begin, a.size);
    forall i: nat | FirstTouched(t, a.begin, a.size, i)
      ensures EndItem(s, it).m == if GivesUp(t, a) then Mapping(t[..i] + t[i + 1..], s.m.blocks - {t[i].tgt})
                    else if a.ty.memberOf != 0 && !a.ty.ptrAndObj then s.m
                    else s.m.(table := t[i := t[i].(rc := t[i].rc - 1)])
    {
      FirstTouchedIs(t, a.begin, a.size, i);
      assert t[i := t[i].(rc := t[i].rc - 1)][..i] == t[..i];
      assert t[i := t[i].(rc := t[i].rc - 1)][i + 1..] == t[i + 1..];
      EndEntry(s, it, i);
    }
  }

  lemma EndEntry(s: State, it: Item, i: nat)
    requires ValidTable(s.m.table) && !it.arg.ty.Skipped() && i < |s.m.table|
    requires FirstHit(s.m.table, it.arg.begin, it.arg.size) == i
    ensures var a, t := it.arg, s.m.table;
      EndItem(s, it).m ==
        if Deletes(LookupForEnd(s.m, a), a) then Mapping(t[..i] + t[i + 1..], s.m.blocks - {t[i].tgt})
        else if a.ty.memberOf != 0 && !a.ty.ptrAndObj then s.m
        else s.m.(table := t[i := t[i].(rc := t[i].rc - 1)])
  {
    hide Restore, Copy, Forget;
    var a, t := it.arg, s.m.table;
    var t' := LookupForEnd(s.m, a).m.table;
    assert FirstHit(t', a.begin, a.size) == i by {
      SameRangesSameHit(t, t', a.begin, a.size);
    }
    assert t'[..i] == t[..i] && t'[i + 1..] == t[i + 1..];
  }
}
