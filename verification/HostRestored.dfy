/**
 * What data regions around computations that leave device memory alone do to host memory,
 * although device copies of pointers hold device addresses in between.
 */
module HostRestored {
  import opened Memory
  import opened MappingTable
  import opened MappingInvariants
  import opened Device
  import opened TargetData
  import opened TableRestored
  import opened TableGrows
  import opened DeviceMirror

  // ------------------------------------------------------------- restoring

  /** A key of the shadow map in [lo, lo + n) covers byte a. */
  ghost predicate Restores(shadow: map<int, Shadow>, lo: int, n: nat, a: int) {
    exists k :: k in shadow && lo <= k < lo + n && k <= a < k + PTR_SIZE
  }

  lemma StoreAgreeing(h: Mem, h0: Mem, shadow: map<int, Shadow>, k: int, a: int)
    requires ShadowsAgree(shadow, h0) && k in shadow
    ensures StoreWord(h, k, shadow[k].hstVal)(a) == if k <= a < k + PTR_SIZE then h0(a) else h(a)
  {
    StoreOfLoad(h, h0, k, a);
  }

  /** The last key of the walk. */
  lemma RestoreStep(h: Mem, h0: Mem, shadow: map<int, Shadow>, lo: int, n: nat, a: int)
    requires ShadowsAgree(shadow, h0)
    ensures var k := lo + n;
      Restore(h, shadow, lo, n + 1)(a) ==
        if k in shadow && k <= a < k + PTR_SIZE then h0(a) else Restore(h, shadow, lo, n)(a)
  {
    hide StoreWord, ShadowsAgree;
    var k, before := lo + n, Restore(h, shadow, lo, n);
    if k in shadow {
      StoreAgreeing(before, h0, shadow, k, a);
    }
  }

  lemma RestoresStep(shadow: map<int, Shadow>, lo: int, n: nat, a: int)
    ensures var k := lo + n;
      Restores(shadow, lo, n + 1, a) <==> Restores(shadow, lo, n, a) || (k in shadow && k <= a < k + PTR_SIZE)
  {
  }

  lemma NothingRestored(h: Mem, shadow: map<int, Shadow>, lo: int, a: int)
    ensures Restore(h, shadow, lo, 0)(a) == h(a) && !Restores(shadow, lo, 0, a)
  {
  }

  /** With agreeing shadows a restore puts h0's bytes back, and all those under a key in range. */
  lemma {:induction false} RestoreReinstates(h: Mem, h0: Mem, shadow: map<int, Shadow>, lo: int, n: nat, a: int)
    requires ShadowsAgree(shadow, h0)
    ensures Restore(h, shadow, lo, n)(a) == if Restores(shadow, lo, n, a) then h0(a) else h(a)
    decreases n
  {
    hide Restore, Restores, ShadowsAgree;
    if n == 0 {
      NothingRestored(h, shadow, lo, a);
    } else {
      RestoreReinstates(h, h0, shadow, lo, n - 1, a);
      RestoreStep(h, h0, shadow, lo, n - 1, a);
      RestoresStep(shadow, lo, n - 1, a);
    }
  }

  // --------------------------------------------------------------- one end

  /** The end of the argument copies device bytes to the host. */
  ghost predicate OwesCopy(m: Mapping, it: Item) {
    !it.arg.ty.Skipped() && CopiesOut(LookupForEnd(m, it.arg), it) && it.arg.size != 0
  }

  /** How far from the argument's range its device copy lies when it ends. */
  function EndOffset(m: Mapping, it: Item): int {
    LookupForEnd(m, it.arg).tp - it.arg.begin
  }

  /** Every byte the end copies out is h0's, or under a pointer that the end restores. */
  ghost predicate MirroredForEnd(s: State, it: Item, h0: Mem) {
    OwesCopy(s.m, it) ==>
      Mirrors(s.dev, s.shadow, h0, it.arg.begin, it.arg.begin, it.arg.size, EndOffset(s.m, it))
  }

  /** Host memory after the copy of EndItem, before pointers are restored. */
  function Retrieved(s: State, it: Item): Mem {
    if CopiesOut(LookupForEnd(s.m, it.arg), it) then
      Copy(s.host, it.arg.begin, s.dev, LookupForEnd(s.m, it.arg).tp, it.arg.size)
    else
      s.host
  }

  lemma RetrievedByte(s: State, it: Item, b: int)
    requires !it.arg.ty.Skipped()
    ensures Retrieved(s, it)(b) ==
      if OwesCopy(s.m, it) && it.arg.begin <= b < it.arg.begin + it.arg.size
      then s.dev(b + EndOffset(s.m, it)) else s.host(b)
  {
    hide LookupForEnd, CopiesOut;
    var tp := LookupForEnd(s.m, it.arg).tp;
    assert tp + (b - it.arg.begin) == b + EndOffset(s.m, it);
  }

  lemma HostAtEnd(s: State, it: Item)
    requires !it.arg.ty.Skipped()
    ensures EndItem(s, it).host ==
      if it.arg.ty.from then Restore(Retrieved(s, it), s.shadow, it.arg.begin, it.arg.size) else Retrieved(s, it)
  {
    hide LookupForEnd, CopiesOut, Copy, Restore;
  }

  /** A host byte after an end. */
  lemma HostAfterEnd(s: State, it: Item, h0: Mem, b: int)
    requires SameBytes(s.host, h0) && ShadowsAgree(s.shadow, h0)
    ensures EndItem(s, it).host(b) ==
      if OwesCopy(s.m, it) && it.arg.begin <= b < it.arg.begin + it.arg.size && !Covered(s.shadow, it.arg.begin, b)
      then s.dev(b + EndOffset(s.m, it)) else h0(b)
  {
    hide Retrieved, LookupForEnd, EndOffset, ShadowsAgree, Restore;
    var a := it.arg;
    assert s.host(b) == h0(b);
    if a.ty.Skipped() {
      assert EndItem(s, it) == s;
    } else {
      hide EndItem;
      HostAtEnd(s, it);
      RetrievedByte(s, it, b);
      RestoreReinstates(Retrieved(s, it), h0, s.shadow, a.begin, a.size, b);
      RestoresIffCovered(s.shadow, a.begin, a.size, b);
    }
  }

  lemma RestoresIffCovered(shadow: map<int, Shadow>, lo: int, n: nat, b: int)
    ensures lo <= b < lo + n ==> (Restores(shadow, lo, n, b) <==> Covered(shadow, lo, b))
  {
  }

  /** An end keeps host memory exactly when the bytes it copies out are mirrored or restored. */
  lemma EndKeepsHostIff(s: State, it: Item, h0: Mem)
    requires SameBytes(s.host, h0) && ShadowsAgree(s.shadow, h0)
    ensures SameBytes(EndItem(s, it).host, h0) <==> MirroredForEnd(s, it, h0)
    ensures ShadowsAgree(EndItem(s, it).shadow, h0)
  {
    hide EndItem, LookupForEnd, ShadowsAgree, OwesCopy, Copy;
    var h, off := EndItem(s, it).host, EndOffset(s.m, it);
    if SameBytes(h, h0) && OwesCopy(s.m, it) {
      forall b | it.arg.begin <= b < it.arg.begin + it.arg.size
        ensures s.dev(b + off) == h0(b) || Covered(s.shadow, it.arg.begin, b)
      {
        HostAfterEnd(s, it, h0, b);
        assert h(b) == h0(b);
      }
    }
    if MirroredForEnd(s, it, h0) {
      forall b
        ensures h(b) == h0(b)
      {
        HostAfterEnd(s, it, h0, b);
      }
    }
    EndKeepsAgreement(s, it, h0);
  }

  lemma EndKeepsAgreement(s: State, it: Item, h0: Mem)
    requires ShadowsAgree(s.shadow, h0)
    ensures ShadowsAgree(EndItem(s, it).shadow, h0)
  {
  }

  // ---------------------------------------------------------- all programs

  /** Host memory is h0 after each end of the program. */
  ghost predicate KeptThroughout(s: State, p: Prog, h0: Mem)
    decreases p
  {
    match p
    case Compute => true
    case Kernel(_) => true
    case Scope(it, c, body) =>
      KeptThroughout(BeginItem(s, it, c), body, h0) && SameBytes(Exec(s, p).host, h0)
    case Then(first, second) => KeptThroughout(s, first, h0) && KeptThroughout(Exec(s, first), second, h0)
  }

  /** Whenever an end of the program copies bytes out, they are mirrored or restored. */
  ghost predicate MirroredThroughout(s: State, p: Prog, h0: Mem)
    decreases p
  {
    match p
    case Compute => true
    case Kernel(_) => true
    case Scope(it, c, body) =>
      var s1 := BeginItem(s, it, c);
      MirroredThroughout(s1, body, h0) && MirroredForEnd(Exec(s1, body), it, h0)
    case Then(first, second) => MirroredThroughout(s, first, h0) && MirroredThroughout(Exec(s, first), second, h0)
  }

  /** For any program whatever: host memory is kept exactly when each copy is mirrored. */
  lemma {:induction false} KeptIffMirrored(s: State, p: Prog, h0: Mem)
    requires SameBytes(s.host, h0) && ShadowsAgree(s.shadow, h0)
    ensures KeptThroughout(s, p, h0) <==> MirroredThroughout(s, p, h0)
    ensures KeptThroughout(s, p, h0) ==> SameBytes(Exec(s, p).host, h0) && ShadowsAgree(Exec(s, p).shadow, h0)
    decreases p
  {
    hide BeginItem, EndItem, SameBytes, ShadowsAgree, MirroredForEnd;
    match p
    case Compute =>
    case Kernel(_) =>
    case Then(first, second) =>
      KeptIffMirrored(s, first, h0);
      if KeptThroughout(s, first, h0) {
        KeptIffMirrored(Exec(s, first), second, h0);
      }
    case Scope(it, c, body) =>
      var s1 := BeginItem(s, it, c);
      BeginKeepsAgreement(s, it, c, h0);
      KeptIffMirrored(s1, body, h0);
      if KeptThroughout(s1, body, h0) {
        EndKeepsHostIff(Exec(s1, body), it, h0);
      }
  }

  // ----------------------------------------- copied out only if copied in

  lemma {:induction false} CountOfContaining(t: seq<Entry>, hp: int, i: nat)
    requires ValidTable(t) && i < |t| && t[i].begin <= hp < t[i].end
    ensures RefCnt(t, hp) == t[i].rc
  {
    if i > 0 {
      assert Separate(t[0], t[i]);
      assert forall j, k {:trigger Separate(t[1..][j], t[1..][k])} ::
          0 <= j < k < |t| - 1 ==> t[1..][j] == t[j + 1] && t[1..][k] == t[k + 1] && Separate(t[j + 1], t[k + 1]);
      CountOfContaining(t[1..], hp, i - 1);
    }
  }

  lemma {:induction false} CountNamesAnEntry(t: seq<Entry>, hp: int) returns (i: nat)
    requires RefCnt(t, hp) != -1
    ensures i < |t| && t[i].begin <= hp < t[i].end
  {
    if t[0].begin <= hp < t[0].end {
      i := 0;
    } else {
      i := CountNamesAnEntry(t[1..], hp);
      i := i + 1;
    }
  }

  /** In a grown table an address that was mapped is mapped still, with no smaller count. */
  lemma CountGrows(t: seq<Entry>, t': seq<Entry>, hp: int)
    requires ValidTable(t) && ValidTable(t') && Grown(t, t') && RefCnt(t, hp) != -1
    ensures 1 <= RefCnt(t, hp) <= RefCnt(t', hp)
  {
    var i := CountNamesAnEntry(t, hp);
    CountOfContaining(t, hp, i);
    FindSurvivor(t, t', i);
    var j :| 0 <= j < |t'| && t'[j].begin == t[i].begin && t'[j].end == t[i].end && t'[j].rc >= t[i].rc;
    CountOfContaining(t', hp, j);
  }

  /** The ending lookup translates the range as its begin did. */
  lemma EndFindsTheRange(t: seq<Entry>, t2: seq<Entry>, m2: Mapping, a: Arg, off: int)
    requires m2.table == t2 && ValidTable(t2) && Grown(t, t2) && MappedAt(t, a.begin, a.begin, a.size, off)
    ensures LookupForEnd(m2, a).tp == a.begin + off
  {
    MappedAtGrows(t, t2, a.begin, a.begin, a.size, off);
    var j :| 0 <= j < |t2| && Places(t2[j], a.begin, a.begin, a.size, off);
    ContainedIsFound(t2, a.begin, a.size, j);
  }

  /** A range found by its begin is not the last reference's at its end, unless it is a plain member. */
  lemma FoundIsNotLast(s: State, s2: State, it: Item, c: Choice)
    requires Inv(s.m) && Inv(s2.m) && Faithful(s.m, it.arg, c) && !it.arg.ty.Skipped() && !it.arg.ty.IsPlainMember()
    requires Grown(BeginItem(s, it, c).m.table, s2.m.table) && Obj(s, it, c).isNew.Existing?
    ensures !LookupForEnd(s2.m, it.arg).isLast
  {
    hide Inv, Grown, Faithful;
    var a, t, t1, t2 := it.arg, ObtainSlot(s.m, it.arg, c).m.table, BeginItem(s, it, c).m.table, s2.m.table;
    var k := FirstHit(t, a.begin, a.size);
    FaithfulRequests(s.m, it.arg, c);
    BeginKeepsTables(s, it, c);
    FindSurvivor(t1, t2, k);
    var j :| 0 <= j < |t2| && t2[j].begin == t1[k].begin && t2[j].end == t1[k].end && t2[j].rc >= t1[k].rc;
    assert t1[k].rc >= 2 && Contained(t[k], a.begin, a.size) by {
      PositiveCount(ObtainSlot(s.m, a, c).m, k);
      FaithfulIsWhole(s.m, a, c);
    }
    FoundAt(s2.m, a.begin, a.size, j);
  }

  lemma PositiveCount(m: Mapping, k: nat)
    requires Inv(m) && k < |m.table|
    ensures m.table[k].rc >= 1
  {
  }

  lemma FaithfulIsWhole(m: Mapping, a: Arg, c: Choice)
    requires Faithful(m, a, c) && !a.ty.Skipped()
    ensures NotPartial(ObtainSlot(m, a, c).m.table, a.begin, a.size) && (a.ty.from ==> a.ty.to) && !a.ty.delete
  {
  }

  lemma FoundAt(m: Mapping, hp: int, size: nat, j: nat)
    requires Inv(m) && j < |m.table| && Contained(m.table[j], hp, size)
    ensures FirstHit(m.table, hp, size) == j
  {
    ContainedIsFound(m.table, hp, size, j);
  }

  /** The struct's count has not dropped between the member's begin and its end. */
  ghost predicate ParentKnown(s: State, s2: State, it: Item, c: Choice) {
    it.arg.ty.from && it.arg.ty.IsPlainMember() ==>
      RefCnt(s.m.table, it.parent) != -1 || s2.m == BeginItem(s, it, c).m
  }

  lemma ParentStillLast(s: State, s2: State, it: Item, c: Choice)
    requires Inv(s.m) && Inv(s2.m) && Faithful(s.m, it.arg, c) && !it.arg.ty.Skipped() && it.arg.ty.IsPlainMember()
    requires Grown(BeginItem(s, it, c).m.table, s2.m.table)
    requires RefCnt(s.m.table, it.parent) != -1 && RefCnt(s2.m.table, it.parent) == 1
    ensures RefCnt(BeginItem(s, it, c).m.table, it.parent) == 1
  {
    hide BeginItem, Faithful, Grown, BlocksMatch, ValidTable;
    FaithfulIsWithin(s.m, it.arg, c);
    BeginGrows(s, it, c);
    FaithfulRequests(s.m, it.arg, c);
    BeginKeepsTables(s, it, c);
    CountGrows(s.m.table, BeginItem(s, it, c).m.table, it.parent);
    CountGrows(BeginItem(s, it, c).m.table, s2.m.table, it.parent);
  }

  /** Bytes are copied out only if they were copied in, and from where they were copied to. */
  lemma CopiedOutOnlyIfCopiedIn(s: State, s2: State, it: Item, c: Choice)
    requires Inv(s.m) && Inv(s2.m) && Faithful(s.m, it.arg, c)
    requires Grown(BeginItem(s, it, c).m.table, s2.m.table) && ParentKnown(s, s2, it, c)
    requires OwesCopy(s2.m, it)
    ensures CopiesIn(Obj(s, it, c), it, c) && !Obj(s, it, c).isNew.Unset?
    ensures LookupForEnd(s2.m, it.arg).tp == Obj(s, it, c).tp
    ensures MappedAt(BeginItem(s, it, c).m.table, it.arg.begin, it.arg.begin, it.arg.size, EndOffset(s2.m, it))
  {
    hide Inv, ValidTable, Faithful, Grown, MappedAt, GetOrAlloc, GetTgtPtr, RefCnt;
    var a, obj := it.arg, Obj(s, it, c);
    FaithfulRequests(s.m, it.arg, c);
    BeginMaps(s, it, c);
    FaithfulIsWhole(s.m, a, c);
    SplitInv(s2.m);
    EndFindsTheRange(BeginItem(s, it, c).m.table, s2.m.table, s2.m, a, obj.tp - a.begin);
    if obj.isNew.Existing? && !a.ty.always {
      if a.ty.IsPlainMember() {
        PlainLookupKeeps(s2.m, a);
        if RefCnt(s.m.table, it.parent) != -1 {
          ParentStillLast(s, s2, it, c);
        }
      } else {
        FoundIsNotLast(s, s2, it, c);
      }
    }
  }

  lemma SplitInv(m: Mapping)
    requires Inv(m)
    ensures ValidTable(m.table)
  {
  }

  lemma PlainLookupKeeps(m: Mapping, a: Arg)
    requires a.ty.IsPlainMember()
    ensures LookupForEnd(m, a).m == m
  {
  }

  // --------------------------------------------------- mirrors through runs

  /** The state between regions: a sound table, and host memory as it was. */
  ghost predicate Calm(s: State, h0: Mem) {
    Inv(s.m) && SameBytes(s.host, h0) && ShadowsAgree(s.shadow, h0)
  }

  lemma BeginStaysCalm(s: State, it: Item, c: Choice, h0: Mem)
    requires Calm(s, h0) && Faithful(s.m, it.arg, c)
    ensures Calm(BeginItem(s, it, c), h0)
  {
    BeginKeepsAgreement(s, it, c, h0);
    FaithfulRequests(s.m, it.arg, c);
    BeginKeepsTables(s, it, c);
  }

  lemma ProgStaysCalm(s: State, p: Prog, h0: Mem)
    requires Calm(s, h0) && FaithfulProg(s, p) && KeptThroughout(s, p, h0)
    ensures Calm(Exec(s, p), h0) && Grown(s.m.table, Exec(s, p).m.table)
  {
    ProgGrows(s, p);
    KeptIffMirrored(s, p, h0);
  }

  /** No pointer slot of the program begins before lo and ends after it. */
  predicate SlotsAvoid(p: Prog, lo: int)
    decreases p
  {
    match p
    case Compute => true
    case Kernel(_) => true
    case Scope(it, _, body) => SlotAvoids(it.arg, lo) && SlotsAvoid(body, lo)
    case Then(first, second) => SlotsAvoid(first, lo) && SlotsAvoid(second, lo)
  }

  /** No slot of the program cuts through floor. */
  ghost predicate UncutBy(t: seq<Entry>, p: Prog, floor: int, lo: int, n: nat) {
    SlotsAvoid(p, floor) || FromEntry(t, floor, lo, n)
  }

  /** What the end of an argument looks up is not partly mapped after a body that let the table grow. */
  lemma EndLookupIsNotPartial(s: State, s2: State, it: Item, c: Choice)
    requires Inv(s.m) && Inv(s2.m) && Faithful(s.m, it.arg, c) && !it.arg.ty.Skipped() && it.arg.size != 0
    requires Grown(BeginItem(s, it, c).m.table, s2.m.table)
    ensures NotPartial(s2.m.table, it.arg.begin, it.arg.size)
  {
    hide Inv, Faithful, Grown, GetOrAlloc, MappedAt, BeginItem;
    var a, off := it.arg, Obj(s, it, c).tp - it.arg.begin;
    FaithfulRequests(s.m, it.arg, c);
    BeginMaps(s, it, c);
    MappedAtGrows(BeginItem(s, it, c).m.table, s2.m.table, a.begin, a.begin, a.size, off);
    IsNotPartial(s2.m, a.begin, a.size, off);
  }

  lemma IsNotPartial(m: Mapping, hp: int, size: nat, off: int)
    requires Inv(m) && MappedAt(m.table, hp, hp, size, off)
    ensures NotPartial(m.table, hp, size)
  {
    var j :| 0 <= j < |m.table| && Places(m.table[j], hp, hp, size, off);
    ContainedIsFound(m.table, hp, size, j);
  }

  lemma EmptyRangeIsNotPartial(t: seq<Entry>, hp: int)
    ensures NotPartial(t, hp, 0)
  {
  }

  lemma SameBytesMirror(
    dev: Mem, dev': Mem, shadow: map<int, Shadow>, h0: Mem, floor: int, lo: int, n: nat, off: int
  )
    requires SameBytes(dev', dev) && Mirrors(dev, shadow, h0, floor, lo, n, off)
    ensures Mirrors(dev', shadow, h0, floor, lo, n, off)
  {
    forall a | lo <= a < lo + n
      ensures dev'(a + off) == h0(a) || Covered(shadow, floor, a)
    {
      assert dev'(a + off) == dev(a + off);
    }
  }

  /** A range that is mapped and mirrored stays mirrored through a program that keeps host memory. */
  lemma {:induction false} ProgKeepsMirrors(s: State, p: Prog, h0: Mem, floor: int, lo: int, n: nat, off: int)
    requires Calm(s, h0) && FaithfulProg(s, p) && KeptThroughout(s, p, h0)
    requires MappedAt(s.m.table, floor, lo, n, off) && UncutBy(s.m.table, p, floor, lo, n)
    requires Mirrors(s.dev, s.shadow, h0, floor, lo, n, off)
    ensures Mirrors(Exec(s, p).dev, Exec(s, p).shadow, h0, floor, lo, n, off)
    decreases p
  {
    hide BeginItem, EndItem, Faithful, ParentSteady, Calm, MappedAt, FromEntry, Mirrors, Grown, SameBytes;
    match p
    case Compute =>
    case Kernel(_) =>
      SameBytesMirror(s.dev, Exec(s, p).dev, s.shadow, h0, floor, lo, n, off);
    case Then(first, second) =>
      ProgStaysCalm(s, first, h0);
      MappedAtGrows(s.m.table, Exec(s, first).m.table, floor, lo, n, off);
      ProgKeepsMirrors(s, first, h0, floor, lo, n, off);
      ProgKeepsMirrors(Exec(s, first), second, h0, floor, lo, n, off);
    case Scope(it, c, body) =>
      var s1 := BeginItem(s, it, c);
      ScopeBeginKeepsMirrors(s, it, c, body, h0, floor, lo, n, off);
      ProgKeepsMirrors(s1, body, h0, floor, lo, n, off);
      ScopeEndKeepsMirrors(s, it, c, body, h0, floor, lo, n, off);
  }

  lemma ScopeBeginKeepsMirrors(
    s: State, it: Item, c: Choice, body: Prog, h0: Mem, floor: int, lo: int, n: nat, off: int
  )
    requires Calm(s, h0) && Faithful(s.m, it.arg, c)
    requires MappedAt(s.m.table, floor, lo, n, off) && UncutBy(s.m.table, Scope(it, c, body), floor, lo, n)
    requires Mirrors(s.dev, s.shadow, h0, floor, lo, n, off)
    ensures var s1 := BeginItem(s, it, c);
      && Calm(s1, h0) && MappedAt(s1.m.table, floor, lo, n, off) && UncutBy(s1.m.table, body, floor, lo, n)
      && Mirrors(s1.dev, s1.shadow, h0, floor, lo, n, off)
  {
    hide BeginItem, Faithful, MappedAt, FromEntry, Mirrors, Grown, SameBytes, Inv, ShadowsAgree;
    BeginStaysCalm(s, it, c, h0);
    BeginKeepsMirrors(s, it, c, h0, floor, lo, n, off);
    FaithfulIsWithin(s.m, it.arg, c);
    BeginGrows(s, it, c);
    MappedAtGrows(s.m.table, BeginItem(s, it, c).m.table, floor, lo, n, off);
  }

  lemma ScopeEndKeepsMirrors(
    s: State, it: Item, c: Choice, body: Prog, h0: Mem, floor: int, lo: int, n: nat, off: int
  )
    requires Calm(s, h0) && FaithfulProg(s, Scope(it, c, body)) && MappedAt(s.m.table, floor, lo, n, off)
    requires var s2 := Exec(BeginItem(s, it, c), body); Mirrors(s2.dev, s2.shadow, h0, floor, lo, n, off)
    ensures var s' := Exec(s, Scope(it, c, body)); Mirrors(s'.dev, s'.shadow, h0, floor, lo, n, off)
  {
    hide BeginItem, EndItem, Faithful, ParentSteady, MappedAt, Mirrors, Grown, SameBytes, Inv, ShadowsAgree;
    var s1 := BeginItem(s, it, c);
    var s2 := Exec(s1, body);
    if it.arg.ty.Skipped() {
      SkippedChangesNothing(s2, it, c);
    } else {
      FaithfulRequests(s.m, it.arg, c);
      BeginKeepsTables(s, it, c);
      ProgGrows(s1, body);
      ProgGrows(s, Scope(it, c, body));
      MappedAtGrows(s.m.table, Exec(s, Scope(it, c, body)).m.table, floor, lo, n, off);
      FaithfulIsWhole(s.m, it.arg, c);
      if it.arg.size == 0 {
        EmptyRangeIsNotPartial(s2.m.table, it.arg.begin);
      } else {
        EndLookupIsNotPartial(s, s2, it, c);
      }
      SplitInv(s2.m);
      EndKeepsMirrors(s2, it, h0, floor, lo, n, off);
    }
  }

  /** A range that its end copies out is mirrored from its begin on. */
  lemma CopiedOutIsMirrored(s: State, it: Item, c: Choice, body: Prog, h0: Mem, floor: int)
    requires Calm(s, h0) && FaithfulProg(s, Scope(it, c, body)) && KeptThroughout(BeginItem(s, it, c), body, h0)
    requires var s1, s2 := BeginItem(s, it, c), Exec(BeginItem(s, it, c), body);
      && OwesCopy(s2.m, it)
      && MappedAt(s1.m.table, floor, it.arg.begin, it.arg.size, EndOffset(s2.m, it))
      && UncutBy(s1.m.table, Scope(it, c, body), floor, it.arg.begin, it.arg.size)
    ensures var s2 := Exec(BeginItem(s, it, c), body);
      Mirrors(s2.dev, s2.shadow, h0, floor, it.arg.begin, it.arg.size, EndOffset(s2.m, it))
  {
    hide BeginItem, EndItem, Faithful, ParentSteady, MappedAt, FromEntry, Mirrors, Grown, SameBytes, Inv, ShadowsAgree;
    hide LookupForEnd;
    var s1 := BeginItem(s, it, c);
    var s2 := Exec(s1, body);
    BeginStaysCalm(s, it, c, h0);
    ProgStaysCalm(s1, body, h0);
    SteadyIsKnown(s, it, c, body);
    CopiedOutOnlyIfCopiedIn(s, s2, it, c);
    BeginMakesMirror(s, it, c, h0, floor);
    ProgKeepsMirrors(s1, body, h0, floor, it.arg.begin, it.arg.size, EndOffset(s2.m, it));
  }

  lemma SteadyIsKnown(s: State, it: Item, c: Choice, body: Prog)
    requires ParentSteady(s, it, c, body) && Inv(BeginItem(s, it, c).m)
    ensures ParentKnown(s, Exec(BeginItem(s, it, c), body), it, c)
  {
    hide BeginItem;
    if AcceptedProg(BeginItem(s, it, c), body) {
      RegionsRestoreTable(BeginItem(s, it, c), body);
    }
  }

  // ------------------------------------------------------- granted programs

  /** A shadowed pointer that begins before lo covers byte a. */
  ghost predicate Tail(shadow: map<int, Shadow>, lo: int, a: int) {
    exists k :: k in shadow && k < lo && a < k + PTR_SIZE
  }

  /** The bytes copied out under a pointer that the end's walk passes over are as in h0. */
  ghost predicate TailsHarmless(s: State, it: Item, h0: Mem) {
    OwesCopy(s.m, it) ==>
      forall a {:trigger Tail(s.shadow, it.arg.begin, a)} ::
        it.arg.begin <= a < it.arg.begin + it.arg.size && Tail(s.shadow, it.arg.begin, a) ==>
          s.dev(a + EndOffset(s.m, it)) == h0(a) || Covered(s.shadow, it.arg.begin, a)
  }

  ghost predicate TailsThroughout(s: State, p: Prog, h0: Mem)
    decreases p
  {
    match p
    case Compute => true
    case Kernel(_) => true
    case Scope(it, c, body) =>
      var s1 := BeginItem(s, it, c);
      TailsThroughout(s1, body, h0) && TailsHarmless(Exec(s1, body), it, h0)
    case Then(first, second) => TailsThroughout(s, first, h0) && TailsThroughout(Exec(s, first), second, h0)
  }

  /** A range mirrored from its entry's begin on is mirrored but for the tails. */
  lemma MirroredButForTails(s: State, it: Item, h0: Mem, floor: int)
    requires OwesCopy(s.m, it) ==>
      floor <= it.arg.begin && Mirrors(s.dev, s.shadow, h0, floor, it.arg.begin, it.arg.size, EndOffset(s.m, it))
    ensures MirroredForEnd(s, it, h0) <==> TailsHarmless(s, it, h0)
  {
    var shadow, lo := s.shadow, it.arg.begin;
    forall a | Covered(shadow, floor, a) && lo <= a
      ensures Covered(shadow, lo, a) || Tail(shadow, lo, a)
    {
      var k :| k in shadow && floor <= k <= a < k + PTR_SIZE;
    }
  }

  /** Where the entry of an argument's range begins. */
  lemma FloorOf(t: seq<Entry>, lo: int, n: nat, off: int) returns (floor: int)
    requires MappedAt(t, lo, lo, n, off)
    ensures floor <= lo && MappedAt(t, floor, lo, n, off) && FromEntry(t, floor, lo, n)
  {
    var i :| 0 <= i < |t| && Places(t[i], lo, lo, n, off);
    floor := t[i].begin;
    assert Places(t[i], floor, lo, n, off);
  }

  /** Granted regions keep host memory exactly when every tail they copy out is harmless. */
  lemma {:induction false} KeptIffTailsHarmless(s: State, p: Prog, h0: Mem)
    requires Calm(s, h0) && FaithfulProg(s, p)
    ensures KeptThroughout(s, p, h0) <==> TailsThroughout(s, p, h0)
    decreases p
  {
    hide BeginItem, EndItem, Faithful, ParentSteady, Calm, SameBytes, TailsHarmless;
    match p
    case Compute =>
    case Kernel(_) =>
    case Then(first, second) =>
      KeptIffTailsHarmless(s, first, h0);
      if KeptThroughout(s, first, h0) {
        ProgStaysCalm(s, first, h0);
        KeptIffTailsHarmless(Exec(s, first), second, h0);
      }
    case Scope(it, c, body) =>
      var s1 := BeginItem(s, it, c);
      BeginStaysCalm(s, it, c, h0);
      KeptIffTailsHarmless(s1, body, h0);
      if KeptThroughout(s1, body, h0) {
        ScopeKeptIffTailHarmless(s, it, c, body, h0);
      }
  }

  lemma ScopeKeptIffTailHarmless(s: State, it: Item, c: Choice, body: Prog, h0: Mem)
    requires Calm(s, h0) && FaithfulProg(s, Scope(it, c, body)) && KeptThroughout(BeginItem(s, it, c), body, h0)
    ensures SameBytes(Exec(s, Scope(it, c, body)).host, h0) <==> TailsHarmless(Exec(BeginItem(s, it, c), body), it, h0)
  {
    hide BeginItem, EndItem, Faithful, ParentSteady, MappedAt, Mirrors, Grown, SameBytes, Inv, ShadowsAgree;
    hide TailsHarmless, OwesCopy, MirroredForEnd;
    var s1 := BeginItem(s, it, c);
    var s2 := Exec(s1, body);
    BeginStaysCalm(s, it, c, h0);
    ProgStaysCalm(s1, body, h0);
    EndKeepsHostIff(s2, it, h0);
    var floor := it.arg.begin;
    if OwesCopy(s2.m, it) {
      SteadyIsKnown(s, it, c, body);
      CopiedOutOnlyIfCopiedIn(s, s2, it, c);
      floor := FloorOf(s1.m.table, it.arg.begin, it.arg.size, EndOffset(s2.m, it));
      CopiedOutIsMirrored(s, it, c, body, h0, floor);
    }
    MirroredButForTails(s2, it, h0, floor);
  }

  // ----------------------------------------------------- without straddling

  /** No pointer slot attached while a FROM range is mapped straddles the beginning of the range. */
  predicate NoStraddle(p: Prog)
    decreases p
  {
    match p
    case Compute => true
    case Kernel(_) => true
    case Scope(it, _, body) => (it.arg.ty.from ==> SlotsAvoid(p, it.arg.begin)) && NoStraddle(body)
    case Then(first, second) => NoStraddle(first) && NoStraddle(second)
  }

  lemma {:induction false} NoStraddleKeepsHost(s: State, p: Prog, h0: Mem)
    requires Calm(s, h0) && FaithfulProg(s, p) && NoStraddle(p)
    ensures KeptThroughout(s, p, h0)
    decreases p
  {
    hide BeginItem, EndItem, Faithful, ParentSteady, Calm, SameBytes, SlotsAvoid;
    match p
    case Compute =>
    case Kernel(_) =>
    case Then(first, second) =>
      NoStraddleKeepsHost(s, first, h0);
      ProgStaysCalm(s, first, h0);
      NoStraddleKeepsHost(Exec(s, first), second, h0);
    case Scope(it, c, body) =>
      BeginStaysCalm(s, it, c, h0);
      NoStraddleKeepsHost(BeginItem(s, it, c), body, h0);
      ScopeKeepsHost(s, it, c, body, h0);
  }

  lemma ScopeKeepsHost(s: State, it: Item, c: Choice, body: Prog, h0: Mem)
    requires Calm(s, h0) && FaithfulProg(s, Scope(it, c, body)) && KeptThroughout(BeginItem(s, it, c), body, h0)
    requires it.arg.ty.from ==> SlotsAvoid(Scope(it, c, body), it.arg.begin)
    ensures SameBytes(Exec(s, Scope(it, c, body)).host, h0)
  {
    hide BeginItem, EndItem, Faithful, ParentSteady, MappedAt, Mirrors, Grown, SameBytes, Inv, ShadowsAgree;
    hide SlotsAvoid, LookupForEnd;
    var s1 := BeginItem(s, it, c);
    var s2 := Exec(s1, body);
    BeginStaysCalm(s, it, c, h0);
    ProgStaysCalm(s1, body, h0);
    EndKeepsHostIff(s2, it, h0);
    if OwesCopy(s2.m, it) {
      SteadyIsKnown(s, it, c, body);
      CopiedOutOnlyIfCopiedIn(s, s2, it, c);
      CopiedOutIsMirrored(s, it, c, body, h0, it.arg.begin);
    }
  }

  /**
   * Granted regions in which no slot straddles the beginning of a FROM range leave every byte
   * of host memory as it was, whether or not the table comes back.
   */
  lemma RegionsKeepHost(s: State, p: Prog)
    requires Inv(s.m) && ShadowsAgree(s.shadow, s.host) && FaithfulProg(s, p) && NoStraddle(p)
    ensures Inv(Exec(s, p).m) && KeptThroughout(s, p, s.host)
    ensures SameBytes(Exec(s, p).host, s.host)
    ensures ShadowsAgree(Exec(s, p).shadow, Exec(s, p).host)
  {
    NoStraddleKeepsHost(s, p, s.host);
    ProgStaysCalm(s, p, s.host);
    forall k | k in Exec(s, p).shadow
      ensures LoadWord(Exec(s, p).host, k) == LoadWord(s.host, k)
    {
      ReadCongruence(Exec(s, p).host, s.host, k, PTR_SIZE);
    }
  }
}
