/**
 * What target_data_begin and target_data_end do to the table, to device and host memory
 * and to the shadow pointers, one argument at a time and then for argument lists.
 */
module TargetData {
  import opened Memory
  import opened MappingTable
  import opened Device

  /** The bits of tgt_map_type; memberOf is the 16-bit field MEMBER_OF, 0 for no member. */
  datatype MapType = MapType(
    to: bool, from: bool, always: bool, delete: bool, ptrAndObj: bool,
    isPrivate: bool, literal: bool, implicit: bool, memberOf: nat)
  {
    predicate IsMember() {
      memberOf != 0
    }

    /** A member of a struct that is not reached through a pointer of the struct. */
    predicate IsPlainMember() {
      IsMember() && !ptrAndObj
    }

    predicate Skipped() {
      literal || isPrivate
    }
  }

  datatype Arg = Arg(base: int, begin: int, size: nat, ty: MapType)

  /** An argument together with the begin address of the argument it is a member of. */
  datatype Item = Item(arg: Arg, parent: int)

  /** Answers of data_alloc for an argument, and what an unset IsNew happens to hold. */
  datatype Choice = Choice(slotAddr: int, objAddr: int, junk: bool)

  datatype State = State(m: Mapping, dev: Mem, shadow: map<int, Shadow>, host: Mem)

  // ------------------------------------------------------------- one begin

  /** HstPtrBase after the switch to the pointee of a PTR_AND_OBJ argument. */
  function ObjBase(host: Mem, a: Arg): int {
    if a.ty.ptrAndObj then Value(LoadWord(host, a.base)) else a.base
  }

  function ObtainSlot(m: Mapping, a: Arg, c: Choice): Obtained {
    if a.ty.ptrAndObj then
      GetOrAlloc(m, a.base, a.base, PTR_SIZE, a.ty.implicit, !a.ty.IsMember(), c.slotAddr)
    else
      Obtained(m, 0, Unset)
  }

  function ObtainObj(m: Mapping, host: Mem, a: Arg, c: Choice): Obtained {
    GetOrAlloc(m, a.begin, ObjBase(host, a), a.size, a.ty.implicit, !a.ty.IsPlainMember(), c.objAddr)
  }

  predicate CopiesIn(obj: Obtained, it: Item, c: Choice) {
    && it.arg.ty.to
    && (|| obj.isNew.Fresh?
        || (obj.isNew.Unset? && c.junk)
        || it.arg.ty.always
        || (it.arg.ty.IsMember() && RefCnt(obj.m.table, it.parent) == 1))
  }

  function BeginItem(s: State, it: Item, c: Choice): State {
    var a := it.arg;
    if a.ty.Skipped() then s else
    var slot := ObtainSlot(s.m, a, c);
    var obj := ObtainObj(slot.m, s.host, a, c);
    var dev := if CopiesIn(obj, it, c) then Copy(s.dev, obj.tp, s.host, a.begin, a.size) else s.dev;
    if a.ty.ptrAndObj then
      var tgtBase := Image(obj.tp - (a.begin - ObjBase(s.host, a)));
      State(obj.m, StoreWord(dev, slot.tp, tgtBase),
            s.shadow[a.base := Shadow(LoadWord(s.host, a.base), slot.tp, tgtBase)], s.host)
    else
      State(obj.m, dev, s.shadow, s.host)
  }

  // --------------------------------------------------------------- one end

  /** Writes back, in ascending order, the host pointers with shadows in [lo, lo + n). */
  function Restore(host: Mem, shadow: map<int, Shadow>, lo: int, n: nat): Mem
    decreases n
  {
    if n == 0 then host else
    var h := Restore(host, shadow, lo, n - 1);
    if lo + n - 1 in shadow then StoreWord(h, lo + n - 1, shadow[lo + n - 1].hstVal) else h
  }

  function Forget(shadow: map<int, Shadow>, lo: int, n: nat): (r: map<int, Shadow>)
    ensures forall k :: k in r <==> k in shadow && !(lo <= k < lo + n)
    ensures forall k :: k in r ==> r[k] == shadow[k]
  {
    map k | k in shadow && !(lo <= k < lo + n) :: shadow[k]
  }

  function LookupForEnd(m: Mapping, a: Arg): Looked {
    GetTgtPtr(m, a.begin, a.size, !a.ty.IsPlainMember())
  }

  /** DelEntry. */
  predicate Deletes(l: Looked, a: Arg) {
    (l.isLast || a.ty.delete) && !a.ty.IsPlainMember()
  }

  predicate CopiesOut(l: Looked, it: Item) {
    && it.arg.ty.from
    && (|| Deletes(l, it.arg)
        || it.arg.ty.always
        || (it.arg.ty.IsPlainMember() && RefCnt(l.m.table, it.parent) == 1))
  }

  function EndItem(s: State, it: Item): State {
    var a := it.arg;
    if a.ty.Skipped() then s else
    var l := LookupForEnd(s.m, a);
    var host := if CopiesOut(l, it) then Copy(s.host, a.begin, s.dev, l.tp, a.size) else s.host;
    State(if Deletes(l, a) then Dealloc(l.m, a.begin, a.size, a.ty.delete).m else l.m,
          s.dev,
          if Deletes(l, a) then Forget(s.shadow, a.begin, a.size) else s.shadow,
          if a.ty.from then Restore(host, s.shadow, a.begin, a.size) else host)
  }

  // -------------------------------------------------------- argument lists

  /** Every MEMBER_OF field names an argument of the list. */
  predicate WellFormed(args: seq<Arg>) {
    forall i :: 0 <= i < |args| ==> args[i].ty.memberOf <= |args|
  }

  function Resolve(args: seq<Arg>, i: nat): Item
    requires WellFormed(args) && i < |args|
  {
    Item(args[i], if args[i].ty.IsMember() then args[args[i].ty.memberOf - 1].begin else 0)
  }

  /** target_data_begin on the arguments from i on. */
  function BeginFrom(s: State, args: seq<Arg>, cs: seq<Choice>, i: nat): State
    requires WellFormed(args) && |cs| == |args| && i <= |args|
    decreases |args| - i
  {
    if i == |args| then s else BeginFrom(BeginItem(s, Resolve(args, i), cs[i]), args, cs, i + 1)
  }

  /** target_data_end on the arguments down to i. */
  function EndDownTo(s: State, args: seq<Arg>, i: nat): State
    requires WellFormed(args) && i <= |args|
    decreases |args| - i
  {
    if i == |args| then s else EndItem(EndDownTo(s, args, i + 1), Resolve(args, i))
  }

  // --------------------------------------------------------------- kernels

  /** One assignment of a kernel: the byte at at becomes a function of the bytes at the addresses from. */
  datatype Store = Store(at: int, from: seq<int>, op: seq<Byte> -> Byte)

  /** Where a kernel finds host byte b: in the entry that contains it, or where it is when there is none. */
  function Locate(t: seq<Entry>, b: int): int {
    if |t| == 0 then b
    else if t[0].begin <= b < t[0].end then t[0].tgt + (b - t[0].begin)
    else Locate(t[1..], b)
  }

  function Loaded(m: Mem, t: seq<Entry>, from: seq<int>): seq<Byte> {
    seq<Byte>(|from|, i requires 0 <= i < |from| => m(Locate(t, from[i])))
  }

  function Perform(m: Mem, t: seq<Entry>, k: Store): Mem {
    var place, byte := Locate(t, k.at), k.op(Loaded(m, t, k.from));
    a => if a == place then byte else m(a)
  }

  /** A kernel run on a memory in which t places host addresses; with no entries, on the host itself. */
  function RunKernel(m: Mem, t: seq<Entry>, ks: seq<Store>): Mem {
    if |ks| == 0 then m else RunKernel(Perform(m, t, ks[0]), t, ks[1..])
  }

  // ----------------------------------------------------- nested structures

  /**
   * Well-nested data regions around kernels. Compute is a kernel that writes nothing; Scope is
   * one argument's begin and end around a body.
   */
  datatype Prog =
    | Compute
    | Kernel(stores: seq<Store>)
    | Scope(it: Item, c: Choice, body: Prog)
    | Then(first: Prog, second: Prog)

  function Exec(s: State, p: Prog): State
    decreases p
  {
    match p
    case Compute => s
    case Kernel(ks) => s.(dev := RunKernel(s.dev, s.m.table, ks))
    case Scope(it, c, body) => EndItem(Exec(BeginItem(s, it, c), body), it)
    case Then(first, second) => Exec(Exec(s, first), second)
  }

  /** A data region is its arguments' scopes, each inside the one before. */
  function RegionFrom(args: seq<Arg>, cs: seq<Choice>, body: Prog, i: nat): Prog
    requires WellFormed(args) && |cs| == |args| && i <= |args|
    decreases |args| - i
  {
    if i == |args| then body else Scope(Resolve(args, i), cs[i], RegionFrom(args, cs, body, i + 1))
  }

  lemma {:induction false} RegionIsBeginBodyEnd(s: State, args: seq<Arg>, cs: seq<Choice>, body: Prog, i: nat)
    requires WellFormed(args) && |cs| == |args| && i <= |args|
    ensures Exec(s, RegionFrom(args, cs, body, i)) == EndDownTo(Exec(BeginFrom(s, args, cs, i), body), args, i)
    decreases |args| - i
  {
    if i < |args| {
      RegionIsBeginBodyEnd(BeginItem(s, Resolve(args, i), cs[i]), args, cs, body, i + 1);
    }
  }
}
