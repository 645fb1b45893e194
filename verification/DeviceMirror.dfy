/** When device memory holds what host memory holds, but for pointers that shadows stand for. */
module DeviceMirror {
  import opened Memory
  import opened MappingTable
  import opened MappingInvariants
  import opened Device
  import opened TargetData
  import opened TableGrows

  // ----------------------------------------------------------- vocabulary

  /** Every shadow holds the pointer that host memory h0 has at its address. */
  ghost predicate ShadowsAgree(shadow: map<int, Shadow>, h0: Mem) {
    forall k :: k in shadow ==> shadow[k].hstVal == LoadWord(h0, k)
  }

  /** A pointer with a shadow begins at or after floor and covers byte a. */
  ghost predicate Covered(shadow: map<int, Shadow>, floor: int, a: int) {
    exists k :: k in shadow && floor <= k <= a < k + PTR_SIZE
  }

  /** Entry e contains the range, places it off bytes away on the device, and contains floor before it. */
  predicate Places(e: Entry, floor: int, lo: int, n: nat, off: int) {
    Contained(e, lo, n) && e.tgt - e.begin == off && e.begin <= floor <= lo
  }

  ghost predicate MappedAt(t: seq<Entry>, floor: int, lo: int, n: nat, off: int) {
    exists i :: 0 <= i < |t| && Places(t[i], floor, lo, n, off)
  }

  /** floor is where the range's entry begins. */
  ghost predicate FromEntry(t: seq<Entry>, floor: int, lo: int, n: nat) {
    exists i :: 0 <= i < |t| && Contained(t[i], lo, n) && t[i].begin == floor
  }

  /** Device memory has h0's bytes for the range, except where a shadowed pointer from floor on lies. */
  ghost predicate Mirrors(dev: Mem, shadow: map<int, Shadow>, h0: Mem, floor: int, lo: int, n: nat, off: int) {
    forall a {:trigger Covered(shadow, floor, a)} ::
      lo <= a < lo + n ==> dev(a + off) == h0(a) || Covered(shadow, floor, a)
  }

  /** The argument's pointer slot, if it has one, does not begin before lo and end after it. */
  predicate SlotAvoids(a: Arg, lo: int) {
    a.ty.ptrAndObj && !a.ty.Skipped() ==> !(a.base < lo < a.base + PTR_SIZE)
  }

  /** No slot cuts through floor: it does not straddle it, or cannot as the entry begins there. */
  ghost predicate Uncut(t: seq<Entry>, a: Arg, floor: int, lo: int, n: nat) {
    SlotAvoids(a, floor) || FromEntry(t, floor, lo, n)
  }

  // ------------------------------------------------------ growing tables

  lemma MappedAtGrows(t: seq<Entry>, t': seq<Entry>, floor: int, lo: int, n: nat, off: int)
    requires Grown(t, t')
    ensures MappedAt(t, floor, lo, n, off) ==> MappedAt(t', floor, lo, n, off)
    ensures FromEntry(t, floor, lo, n) ==> FromEntry(t', floor, lo, n)
  {
    if MappedAt(t, floor, lo, n, off) {
      var i :| 0 <= i < |t| && Places(t[i], floor, lo, n, off);
      FindSurvivor(t, t', i);
      var j :| 0 <= j < |t'| && t'[j].begin == t[i].begin && t'[j].end == t[i].end && t'[j].tgt == t[i].tgt;
      assert Places(t'[j], floor, lo, n, off);
    }
    if FromEntry(t, floor, lo, n) {
      var i :| 0 <= i < |t| && Contained(t[i], lo, n) && t[i].begin == floor;
      FindSurvivor(t, t', i);
      var j :| 0 <= j < |t'| && t'[j].begin == t[i].begin && t'[j].end == t[i].end && t'[j].tgt == t[i].tgt;
      assert Contained(t'[j], lo, n);
    }
  }

  // ---------------------------------------------------- one device write

  /** Mapped host bytes with the same device address are the same byte, in the same entry. */
  lemma OffsetsSeparate(t: seq<Entry>, i: nat, j: nat, a: int, b: int)
    requires ValidTable(t) && i < |t| && j < |t| && t[i].begin <= a < t[i].end && t[j].begin <= b < t[j].end
    requires Translate(t[i], a) == Translate(t[j], b)
    ensures a == b && i == j
  {
    TranslationIsInjective(t, i, j, a, b);
    assert i < j ==> Separate(t[i], t[j]);
    assert j < i ==> Separate(t[j], t[i]);
  }

  lemma CopyKeepsMirrors(
    s: State, dev: Mem, h0: Mem, t: seq<Entry>, floor: int, lo: int, n: nat, off: int, begin: int, size: nat, tp: int
  )
    requires ValidTable(t) && MappedAt(t, floor, lo, n, off) && MappedAt(t, begin, begin, size, tp - begin)
    requires SameBytes(s.host, h0) && dev == Copy(s.dev, tp, s.host, begin, size)
    requires Mirrors(s.dev, s.shadow, h0, floor, lo, n, off)
    ensures Mirrors(dev, s.shadow, h0, floor, lo, n, off)
  {
    var i :| 0 <= i < |t| && Places(t[i], floor, lo, n, off);
    var j :| 0 <= j < |t| && Places(t[j], begin, begin, size, tp - begin);
    forall a | lo <= a < lo + n
      ensures dev(a + off) == h0(a) || Covered(s.shadow, floor, a)
    {
      if tp <= a + off < tp + size {
        OffsetsSeparate(t, i, j, a, a + off - (tp - begin));
        assert s.host(a) == h0(a);
      }
    }
  }

  lemma CopiedByte(dst: Mem, tp: int, src: Mem, begin: int, size: nat, a: int)
    requires begin <= a < begin + size
    ensures Copy(dst, tp, src, begin, size)(a + (tp - begin)) == src(a)
  {
    var b := a + (tp - begin);
    assert begin + (b - tp) == a;
  }

  lemma CopyMakesMirror(s: State, dev: Mem, h0: Mem, floor: int, begin: int, size: nat, tp: int)
    requires SameBytes(s.host, h0) && dev == Copy(s.dev, tp, s.host, begin, size)
    ensures Mirrors(dev, s.shadow, h0, floor, begin, size, tp - begin)
  {
    hide Copy;
    forall a | begin <= a < begin + size
      ensures dev(a + (tp - begin)) == h0(a)
    {
      CopiedByte(s.dev, tp, s.host, begin, size, a);
    }
  }

  /** Attaching a pointer whose slot does not cut through floor. */
  lemma AttachKeepsMirrors(
    dev: Mem, shadow: map<int, Shadow>, h0: Mem, t: seq<Entry>, floor: int, lo: int, n: nat, off: int,
    slot: int, slotTp: int, w: Word, sh: Shadow
  )
    requires ValidTable(t) && MappedAt(t, floor, lo, n, off) && MappedAt(t, slot, slot, PTR_SIZE, slotTp - slot)
    requires !(slot < floor < slot + PTR_SIZE) || FromEntry(t, floor, lo, n)
    requires Mirrors(dev, shadow, h0, floor, lo, n, off)
    ensures Mirrors(StoreWord(dev, slotTp, w), shadow[slot := sh], h0, floor, lo, n, off)
  {
    var dev', shadow' := StoreWord(dev, slotTp, w), shadow[slot := sh];
    var i :| 0 <= i < |t| && Places(t[i], floor, lo, n, off);
    var j :| 0 <= j < |t| && Places(t[j], slot, slot, PTR_SIZE, slotTp - slot);
    forall a | lo <= a < lo + n
      ensures dev'(a + off) == h0(a) || Covered(shadow', floor, a)
    {
      if slotTp <= a + off < slotTp + PTR_SIZE {
        OffsetsSeparate(t, i, j, a, a + off - (slotTp - slot));
        assert floor <= slot by {
          if FromEntry(t, floor, lo, n) {
            var k :| 0 <= k < |t| && Contained(t[k], lo, n) && t[k].begin == floor;
            HitIsContained(t, lo, n, k, i);
          }
        }
        assert slot in shadow' && floor <= slot <= a < slot + PTR_SIZE;
      } else if Covered(shadow, floor, a) {
        var k :| k in shadow && floor <= k <= a < k + PTR_SIZE;
        assert k in shadow';
      }
    }
  }

  // ------------------------------------------------------------- one begin

  lemma ObtainMaps(m: Mapping, hp: int, base: int, size: nat, implicit: bool, update: bool, addr: int)
    requires Whole(m, hp, size, addr)
    ensures var o := GetOrAlloc(m, hp, base, size, implicit, update, addr);
      if o.isNew.Unset? then size == 0 else MappedAt(o.m.table, hp, hp, size, o.tp - hp)
  {
    var o := GetOrAlloc(m, hp, base, size, implicit, update, addr);
    var k := FirstHit(m.table, hp, size);
    if k < |m.table| {
      assert Places(o.m.table[k], hp, hp, size, o.tp - hp);
    } else if size != 0 {
      assert Places(o.m.table[0], hp, hp, size, o.tp - hp);
    }
  }

  function Obj(s: State, it: Item, c: Choice): Obtained {
    ObtainObj(ObtainSlot(s.m, it.arg, c).m, s.host, it.arg, c)
  }

  lemma ObjIsMapped(s: State, it: Item, c: Choice)
    requires WholeRequests(s.m, it.arg, c) && !it.arg.ty.Skipped()
    ensures if Obj(s, it, c).isNew.Unset? then it.arg.size == 0
            else MappedAt(Obj(s, it, c).m.table, it.arg.begin, it.arg.begin, it.arg.size,
                          Obj(s, it, c).tp - it.arg.begin)
  {
    hide GetOrAlloc, NotPartial, MappedAt;
    var a, slot := it.arg, ObtainSlot(s.m, it.arg, c);
    ObtainMaps(slot.m, a.begin, ObjBase(s.host, a), a.size, a.ty.implicit, !a.ty.IsPlainMember(), c.objAddr);
  }

  lemma SlotIsMapped(s: State, it: Item, c: Choice)
    requires WholeRequests(s.m, it.arg, c) && !it.arg.ty.Skipped() && it.arg.ty.ptrAndObj
    ensures var o := Obj(s, it, c);
      MappedAt(o.m.table, it.arg.base, it.arg.base, PTR_SIZE, ObtainSlot(s.m, it.arg, c).tp - it.arg.base)
  {
    hide GetOrAlloc, MappedAt, FirstHit;
    var a, slot := it.arg, ObtainSlot(s.m, it.arg, c);
    ObtainMaps(s.m, a.base, a.base, PTR_SIZE, a.ty.implicit, !a.ty.IsMember(), c.slotAddr);
    ObjGrows(slot.m, s.host, a, c);
    MappedAtGrows(slot.m.table, Obj(s, it, c).m.table, a.base, a.base, PTR_SIZE, slot.tp - a.base);
  }

  lemma BeginTable(s: State, it: Item, c: Choice)
    requires !it.arg.ty.Skipped()
    ensures BeginItem(s, it, c).m == Obj(s, it, c).m
  {
  }

  /** Both ranges of an argument are mapped once its begin is done. */
  lemma BeginMaps(s: State, it: Item, c: Choice)
    requires WholeRequests(s.m, it.arg, c) && !it.arg.ty.Skipped()
    ensures var t' := BeginItem(s, it, c).m.table;
      && (if Obj(s, it, c).isNew.Unset? then it.arg.size == 0
          else MappedAt(t', it.arg.begin, it.arg.begin, it.arg.size, Obj(s, it, c).tp - it.arg.begin))
      && (it.arg.ty.ptrAndObj ==>
            MappedAt(t', it.arg.base, it.arg.base, PTR_SIZE, ObtainSlot(s.m, it.arg, c).tp - it.arg.base))
  {
    hide WholeRequests, BeginItem, Obj, ObtainSlot, MappedAt;
    BeginTable(s, it, c);
    ObjIsMapped(s, it, c);
    if it.arg.ty.ptrAndObj {
      SlotIsMapped(s, it, c);
    }
  }

  /** Device memory after the copy of BeginItem, before a pointer is attached. */
  function AfterCopy(s: State, it: Item, c: Choice): Mem {
    var obj := Obj(s, it, c);
    if CopiesIn(obj, it, c) then Copy(s.dev, obj.tp, s.host, it.arg.begin, it.arg.size) else s.dev
  }

  /** What attaching a pointer writes. */
  lemma AttachIs(s: State, it: Item, c: Choice)
    requires !it.arg.ty.Skipped()
    ensures var s' := BeginItem(s, it, c);
      if it.arg.ty.ptrAndObj then
        && it.arg.base in s'.shadow
        && s'.shadow == s.shadow[it.arg.base := s'.shadow[it.arg.base]]
        && s'.dev == StoreWord(AfterCopy(s, it, c), ObtainSlot(s.m, it.arg, c).tp, s'.shadow[it.arg.base].tgtVal)
      else s'.shadow == s.shadow && s'.dev == AfterCopy(s, it, c)
  {
  }

  /** The second half of a begin: attaching the pointer. */
  lemma AttachStepKeepsMirrors(s: State, it: Item, c: Choice, h0: Mem, floor: int, lo: int, n: nat, off: int)
    requires Inv(s.m) && Faithful(s.m, it.arg, c) && !it.arg.ty.Skipped()
    requires MappedAt(BeginItem(s, it, c).m.table, floor, lo, n, off)
    requires Uncut(BeginItem(s, it, c).m.table, it.arg, floor, lo, n)
    requires Mirrors(AfterCopy(s, it, c), s.shadow, h0, floor, lo, n, off)
    ensures Mirrors(BeginItem(s, it, c).dev, BeginItem(s, it, c).shadow, h0, floor, lo, n, off)
  {
    hide Faithful, BlocksMatch, Mirrors, MappedAt, FromEntry, ValidTable, BeginItem, AfterCopy, Obj, ObtainSlot;
    var a, s' := it.arg, BeginItem(s, it, c);
    AttachIs(s, it, c);
    FaithfulRequests(s.m, it.arg, c);
    BeginKeepsTables(s, it, c);
    BeginMaps(s, it, c);
    if a.ty.ptrAndObj {
      AttachKeepsMirrors(AfterCopy(s, it, c), s.shadow, h0, s'.m.table, floor, lo, n, off, a.base,
                         ObtainSlot(s.m, a, c).tp, s'.shadow[a.base].tgtVal, s'.shadow[a.base]);
    }
  }

  /** A mirrored range stays mirrored through the begin of another argument. */
  lemma BeginKeepsMirrors(s: State, it: Item, c: Choice, h0: Mem, floor: int, lo: int, n: nat, off: int)
    requires Inv(s.m) && Faithful(s.m, it.arg, c) && SameBytes(s.host, h0)
    requires MappedAt(s.m.table, floor, lo, n, off) && Uncut(s.m.table, it.arg, floor, lo, n)
    requires Mirrors(s.dev, s.shadow, h0, floor, lo, n, off)
    ensures var s' := BeginItem(s, it, c);
      && MappedAt(s'.m.table, floor, lo, n, off)
      && Mirrors(s'.dev, s'.shadow, h0, floor, lo, n, off)
  {
    hide Faithful, BlocksMatch, Mirrors, MappedAt, FromEntry, ValidTable;
    var a, s' := it.arg, BeginItem(s, it, c);
    FaithfulIsWithin(s.m, it.arg, c);
    BeginGrows(s, it, c);
    MappedAtGrows(s.m.table, s'.m.table, floor, lo, n, off);
    if !a.ty.Skipped() {
      FaithfulRequests(s.m, it.arg, c);
      BeginKeepsTables(s, it, c);
      BeginMaps(s, it, c);
      var obj, dev := Obj(s, it, c), AfterCopy(s, it, c);
      if CopiesIn(obj, it, c) {
        if obj.isNew.Unset? {
          EmptyCopy(s, dev, h0, floor, lo, n, off, obj.tp, a.begin);
        } else {
          CopyKeepsMirrors(s, dev, h0, s'.m.table, floor, lo, n, off, a.begin, a.size, obj.tp);
        }
      }
      AttachStepKeepsMirrors(s, it, c, h0, floor, lo, n, off);
    }
  }

  lemma EmptyCopy(s: State, dev: Mem, h0: Mem, floor: int, lo: int, n: nat, off: int, tp: int, begin: int)
    requires dev == Copy(s.dev, tp, s.host, begin, 0) && Mirrors(s.dev, s.shadow, h0, floor, lo, n, off)
    ensures Mirrors(dev, s.shadow, h0, floor, lo, n, off)
  {
  }

  /** A range that was copied in is mirrored after its begin. */
  lemma BeginMakesMirror(s: State, it: Item, c: Choice, h0: Mem, floor: int)
    requires Inv(s.m) && Faithful(s.m, it.arg, c) && !it.arg.ty.Skipped() && SameBytes(s.host, h0)
    requires CopiesIn(Obj(s, it, c), it, c)
    requires var off := Obj(s, it, c).tp - it.arg.begin;
      MappedAt(BeginItem(s, it, c).m.table, floor, it.arg.begin, it.arg.size, off)
    requires Uncut(BeginItem(s, it, c).m.table, it.arg, floor, it.arg.begin, it.arg.size)
    ensures var s' := BeginItem(s, it, c);
      Mirrors(s'.dev, s'.shadow, h0, floor, it.arg.begin, it.arg.size, Obj(s, it, c).tp - it.arg.begin)
  {
    hide BeginItem, Faithful, Obj, Mirrors, MappedAt, FromEntry, Inv, Copy;
    var a, obj := it.arg, Obj(s, it, c);
    CopyMakesMirror(s, AfterCopy(s, it, c), h0, floor, a.begin, a.size, obj.tp);
    AttachStepKeepsMirrors(s, it, c, h0, floor, a.begin, a.size, obj.tp - a.begin);
  }

  lemma BeginKeepsAgreement(s: State, it: Item, c: Choice, h0: Mem)
    requires SameBytes(s.host, h0) && ShadowsAgree(s.shadow, h0)
    ensures BeginItem(s, it, c).host == s.host && ShadowsAgree(BeginItem(s, it, c).shadow, h0)
  {
    ReadCongruence(s.host, h0, it.arg.base, PTR_SIZE);
  }

  // --------------------------------------------------------------- one end

  /** Forgetting the shadows in one entry's range uncovers nothing in another's. */
  lemma ForgetKeepsMirrors(
    dev: Mem, shadow: map<int, Shadow>, h0: Mem, floor: int, lo: int, n: nat, off: int,
    e: Entry, gone: Entry, begin: int, size: nat
  )
    requires Places(e, floor, lo, n, off) && Contained(gone, begin, size)
    requires Apart(e.begin, e.end, gone.begin, gone.end)
    requires Mirrors(dev, shadow, h0, floor, lo, n, off)
    ensures Mirrors(dev, Forget(shadow, begin, size), h0, floor, lo, n, off)
  {
    forall b | lo <= b < lo + n && Covered(shadow, floor, b)
      ensures Covered(Forget(shadow, begin, size), floor, b)
    {
      var x :| x in shadow && floor <= x <= b < x + PTR_SIZE;
      assert x in Forget(shadow, begin, size);
    }
  }

  /** What an end without DELETE changes. */
  lemma EndChanges(s: State, it: Item)
    requires ValidTable(s.m.table) && !it.arg.ty.delete
    ensures EndItem(s, it).dev == s.dev
    ensures EndItem(s, it).shadow == s.shadow
      || (&& EndItem(s, it).shadow == Forget(s.shadow, it.arg.begin, it.arg.size)
          && var k := FirstHit(s.m.table, it.arg.begin, it.arg.size);
             k < |s.m.table| && EndItem(s, it).m.table == Erase(s.m.table, k))
  {
  }

  /** A mirrored range stays mirrored through an end that leaves it mapped. */
  lemma EndKeepsMirrors(s: State, it: Item, h0: Mem, floor: int, lo: int, n: nat, off: int)
    requires ValidTable(s.m.table) && !it.arg.ty.delete && NotPartial(s.m.table, it.arg.begin, it.arg.size)
    requires MappedAt(EndItem(s, it).m.table, floor, lo, n, off)
    requires Mirrors(s.dev, s.shadow, h0, floor, lo, n, off)
    ensures EndItem(s, it).dev == s.dev
    ensures Mirrors(s.dev, EndItem(s, it).shadow, h0, floor, lo, n, off)
  {
    hide EndItem, Mirrors;
    var a, s', t := it.arg, EndItem(s, it), s.m.table;
    EndChanges(s, it);
    if s'.shadow != s.shadow {
      var k := FirstHit(t, a.begin, a.size);
      var j :| 0 <= j < |s'.m.table| && Places(s'.m.table[j], floor, lo, n, off);
      var j' := if j < k then j else j + 1;
      assert s'.m.table[j] == t[j'];
      assert if j' < k then Separate(t[j'], t[k]) else Separate(t[k], t[j']);
      ForgetKeepsMirrors(s.dev, s.shadow, h0, floor, lo, n, off, t[j'], t[k], a.begin, a.size);
    }
  }
}
