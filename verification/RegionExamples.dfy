/** Regions that show what the results about data regions cover, and where the code falls short. */
module RegionExamples {
  import opened Memory
  import opened MappingTable
  import opened Device
  import opened TargetData
  import opened TableRestored
  import opened TableGrows
  import opened DeviceMirror
  import opened HostRestored
  import opened Transfers

  const TO := MapType(true, false, false, false, false, false, false, false, 0)
  const TOFROM := TO.(from := true)

  function Idle(host: Mem, dev: Mem): State {
    State(Mapping([], map[]), dev, map[], host)
  }

  /** A structure mapped TO and FROM around a pointer member whose pointee is mapped as well. */
  lemma StructWithPointer(host: Mem, dev: Mem)
    ensures var s := Idle(host, dev);
      var whole := Item(Arg(100, 100, 16, TOFROM), 0);
      var member := Item(Arg(104, 300, 8, TOFROM.(ptrAndObj := true, memberOf := 1)), 100);
      var p := Scope(whole, Choice(0, 1000, false), Scope(member, Choice(0, 2000, false), Compute));
      && Inv(s.m) && ShadowsAgree(s.shadow, s.host)
      && FaithfulProg(s, p) && NoStraddle(p) && BalancedProg(s, p)
  {
    var s, c := Idle(host, dev), Choice(0, 1000, false);
    var whole := Item(Arg(100, 100, 16, TOFROM), 0);
    assert FirstHit([], 100, 16) == 0;
    var m := BeginItem(s, whole, c).m;
    assert m == Mapping([Entry(100, 100, 116, 1000, 1)], map[1000 := 16]);
    assert FirstHit(m.table, 104, 8) == 0 && FirstHit(m.table, 300, 8) == 1;
  }

  // --------------------------------------------- a pointer outside a struct

  const LONE := Item(Arg(100, 300, 8, TOFROM.(ptrAndObj := true)), 0)
  const LONE_AT := Choice(1000, 2000, false)

  lemma LoneBegin(host: Mem, dev: Mem)
    ensures var slot := ObtainSlot(Mapping([], map[]), LONE.arg, LONE_AT);
      && slot == Obtained(Mapping([Entry(100, 100, 108, 1000, 1)], map[1000 := 8]), 1000, Fresh)
      && FirstHit(slot.m.table, 300, 8) == 1
    ensures var m := BeginItem(Idle(host, dev), LONE, LONE_AT).m;
      && m.table == [Entry(Value(LoadWord(host, 100)), 300, 308, 2000, 1), Entry(100, 100, 108, 1000, 1)]
      && m.blocks == map[1000 := 8, 2000 := 8]
  {
    assert FirstHit([], 100, 8) == 0;
    var t := [Entry(100, 100, 108, 1000, 1)];
    assert !Hit(t[0], 300, 8);
    assert FirstHit(t, 300, 8) == 1;
  }

  /**
   * A pointer mapped together with its pointee outside of a struct: host memory is kept, but
   * the end gives back the pointee only, so the pointer's entry and block stay behind.
   */
  lemma LonePointerIsNotBalanced(host: Mem, dev: Mem)
    ensures var s, p := Idle(host, dev), Scope(LONE, LONE_AT, Compute);
      && Inv(s.m) && ShadowsAgree(s.shadow, s.host) && FaithfulProg(s, p) && NoStraddle(p) && GrantedProg(s, p)
      && !BalancedProg(s, p)
      && Exec(s, p).m == Mapping([Entry(100, 100, 108, 1000, 1)], map[1000 := 8])
  {
    var s := Idle(host, dev);
    LoneBegin(host, dev);
    assert FirstHit([], 100, 8) == 0;
    assert Obj(s, LONE, LONE_AT).isNew.Fresh?;
    var m := BeginItem(s, LONE, LONE_AT).m;
    assert FirstHit(m.table, 300, 8) == 0;
    assert Erase(m.table, 0) == [Entry(100, 100, 108, 1000, 1)];
    assert m.blocks - {2000} == map[1000 := 8];
  }

  const EMPTY := Item(Arg(100, 100, 0, TO), 0)

  lemma EmptyBegin(host: Mem, dev: Mem)
    ensures BeginItem(Idle(host, dev), EMPTY, LONE_AT) == Idle(host, dev)
  {
    assert FirstHit([], 100, 0) == 0;
  }

  lemma EmptyEnd(s: State)
    requires s.m == Mapping([Entry(100, 100, 108, 1000, 1)], map[1000 := 8])
    ensures EndItem(s, EMPTY).m == Mapping([], map[])
  {
    assert FirstHit(s.m.table, 100, 0) == 0;
    assert Erase(s.m.table, 0) == [] && s.m.blocks - {1000} == map[];
  }

  /**
   * Around it an empty range, for which no entry is made, finds the pointer's entry when it
   * ends and gives it back: two regions that are each wrong leave the table as it was.
   */
  lemma EmptyRangeGivesBackAnothers(host: Mem, dev: Mem)
    ensures var s, p := Idle(host, dev), Scope(EMPTY, LONE_AT, Scope(LONE, LONE_AT, Compute));
      Inv(s.m) && !GrantedProg(s, p) && !BalancedProg(s, p) && Exec(s, p).m == s.m
  {
    hide BeginItem, EndItem;
    var s, lone := Idle(host, dev), Scope(LONE, LONE_AT, Compute);
    EmptyBegin(host, dev);
    LonePointerIsNotBalanced(host, dev);
    EmptyEnd(Exec(s, lone));
    assert Exec(s, Scope(EMPTY, LONE_AT, lone)) == EndItem(Exec(s, lone), EMPTY);
    assert Hollow(s.m, EMPTY.arg) && !Hollow(Exec(s, lone).m, EMPTY.arg) by {
      assert FirstHit([], 100, 0) == 0 && FirstHit(Exec(s, lone).m.table, 100, 0) == 0;
    }
  }

  // --------------------------------------------------- a refused request

  const HALF := Item(Arg(104, 104, 8, TO), 0)

  /** Half of [104, 112) is mapped: what an unset variable holds decides whether address 0 is written to. */
  lemma RefusedRequestReadsUnset(s: State)
    requires s.m == Mapping([Entry(100, 100, 108, 1000, 1)], map[1000 := 8])
    ensures BeginItem(s, HALF, Choice(0, 0, true)).dev(0) == s.host(104)
    ensures BeginItem(s, HALF, Choice(0, 0, false)).dev(0) == s.dev(0)
  {
    RefusedIsSentToNull(s, HALF, Choice(0, 0, true), 0, 0);
    RefusedIsSentToNull(s, HALF, Choice(0, 0, false), 0, 0);
  }

  // ------------------------------------------------------ a straddling slot

  const WHOLE := Item(Arg(100, 100, 16, TO), 0)
  const WHOLE_AT := Choice(0, 1000, false)
  const MEMBER := Item(Arg(100, 108, 8, TOFROM.(always := true, memberOf := 1)), 100)
  const MEMBER_AT := Choice(0, 0, false)
  const ATTACHED := Item(Arg(104, 300, 8, TO.(ptrAndObj := true, memberOf := 1)), 100)
  const ATTACHED_AT := Choice(0, 300 + 5 * 0x1_0000_0000, false)

  const STRADDLING := Scope(WHOLE, WHOLE_AT, Scope(MEMBER, MEMBER_AT, Scope(ATTACHED, ATTACHED_AT, Compute)))

  const STRUCT := Mapping([Entry(100, 100, 116, 1000, 1)], map[1000 := 16])

  function Zeroes(): Mem {
    _ => 0
  }

  lemma AfterWhole(s: State)
    requires s.m == Mapping([], map[])
    ensures BeginItem(s, WHOLE, WHOLE_AT).m == STRUCT && BeginItem(s, WHOLE, WHOLE_AT).host == s.host
    ensures BeginItem(s, WHOLE, WHOLE_AT).shadow == s.shadow
  {
    assert FirstHit([], 100, 16) == 0;
  }

  lemma StructLookups()
    ensures FirstHit(STRUCT.table, 100, 16) == 0 && FirstHit(STRUCT.table, 108, 8) == 0
    ensures FirstHit(STRUCT.table, 104, 8) == 0 && FirstHit(STRUCT.table, 300, 8) == 1
    ensures RefCnt(STRUCT.table, 100) == 1
  {
    var e := STRUCT.table[0];
    assert Hit(e, 100, 16) && Hit(e, 108, 8) && Hit(e, 104, 8) && !Hit(e, 300, 8);
    assert FirstHit(STRUCT.table[1..], 300, 8) == 0;
  }

  lemma AfterMember(s: State)
    requires s.m == STRUCT
    ensures var s1 := BeginItem(s, MEMBER, MEMBER_AT); s1.m == STRUCT && s1.host == s.host && s1.shadow == s.shadow
  {
    StructLookups();
    assert STRUCT.table[0 := STRUCT.table[0]] == STRUCT.table;
  }

  lemma PointerImage()
    ensures Value(LoadWord(Zeroes(), 104)) == 0
    ensures Image(5 * 0x1_0000_0000)[4] == 5
  {
    ValueIsZero(LoadWord(Zeroes(), 104));
    FifthDigit(5 * 0x1_0000_0000);
  }

  lemma FifthDigit(v: int)
    requires v == 5 * 0x1_0000_0000
    ensures Digit(v, 4) == 5
  {
    assert v / 256 == 5 * 0x100_0000;
    assert Digit(v, 4) == Digit(5 * 0x100_0000, 3) == Digit(5 * 0x1_0000, 2) == Digit(5 * 0x100, 1) == Digit(5, 0);
  }

  lemma AfterPointer(s: State)
    requires s.m == STRUCT && s.host == Zeroes() && s.shadow == map[]
    ensures var s1 := BeginItem(s, ATTACHED, ATTACHED_AT);
      && s1.m.table == [Entry(0, 300, 308, ATTACHED_AT.objAddr, 1)] + STRUCT.table
      && s1.m.blocks == STRUCT.blocks[ATTACHED_AT.objAddr := 8]
      && s1.host == s.host && s1.shadow.Keys == {104} && s1.dev(1008) == 5
  {
    StructLookups();
    PointerImage();
    assert STRUCT.table[0 := STRUCT.table[0]] == STRUCT.table;
  }

  lemma BeforeMemberEnd(s: State)
    requires s.m.table == [Entry(0, 300, 308, ATTACHED_AT.objAddr, 1)] + STRUCT.table
    requires s.m.blocks == STRUCT.blocks[ATTACHED_AT.objAddr := 8] && s.shadow.Keys == {104}
    ensures EndItem(s, ATTACHED) == s.(m := STRUCT)
  {
    assert FirstHit(s.m.table, 300, 8) == 0;
    assert Erase(s.m.table, 0) == STRUCT.table;
    assert s.m.blocks - {ATTACHED_AT.objAddr} == STRUCT.blocks;
    assert Forget(s.shadow, 300, 8) == s.shadow;
  }

  lemma NothingToRestore(h: Mem, shadow: map<int, Shadow>, lo: int, n: nat)
    requires forall k :: k in shadow ==> k < lo
    ensures Restore(h, shadow, lo, n) == h
    decreases n
  {
    if n > 0 {
      NothingToRestore(h, shadow, lo, n - 1);
    }
  }

  lemma MemberEnd(s: State)
    requires s.m == STRUCT && s.shadow.Keys == {104} && s.dev(1008) == 5
    ensures var s1 := EndItem(s, MEMBER); s1.m == STRUCT && s1.host(108) == 5
  {
    StructLookups();
    NothingToRestore(Copy(s.host, 108, s.dev, 1008, 8), s.shadow, 108, 8);
  }

  lemma WholeEnd(s: State)
    requires s.m == STRUCT
    ensures EndItem(s, WHOLE).host == s.host
  {
  }

  /**
   * A pointer slot at 104 straddles the beginning of a member at 108 that is copied back: half
   * of the device address comes with it, and the walk over the shadows starts behind the slot.
   */
  lemma StraddlingSlotSpoilsHost(dev: Mem)
    ensures var s := Idle(Zeroes(), dev);
      && Inv(s.m) && ShadowsAgree(s.shadow, s.host) && FaithfulProg(s, STRADDLING) && !NoStraddle(STRADDLING)
      && s.host(108) == 0 && Exec(s, STRADDLING).host(108) == 5
  {
    hide BeginItem, EndItem, Image;
    var s := Idle(Zeroes(), dev);
    var s1 := BeginItem(s, WHOLE, WHOLE_AT);
    AfterWhole(s);
    var s2 := BeginItem(s1, MEMBER, MEMBER_AT);
    AfterMember(s1);
    var s3 := BeginItem(s2, ATTACHED, ATTACHED_AT);
    AfterPointer(s2);
    BeforeMemberEnd(s3);
    MemberEnd(EndItem(s3, ATTACHED));
    WholeEnd(EndItem(EndItem(s3, ATTACHED), MEMBER));
    StraddlingIsFaithful(s, s1, s2, s3);
  }

  lemma StraddlingIsFaithful(s: State, s1: State, s2: State, s3: State)
    requires s.m == Mapping([], map[]) && s1 == BeginItem(s, WHOLE, WHOLE_AT)
    requires s2 == BeginItem(s1, MEMBER, MEMBER_AT) && s3 == BeginItem(s2, ATTACHED, ATTACHED_AT)
    requires s1.m == STRUCT && s2.m == STRUCT
    ensures FaithfulProg(s, STRADDLING)
  {
    hide BeginItem;
    StructLookups();
    assert FirstHit([], 100, 16) == 0;
    assert Faithful(s.m, WHOLE.arg, WHOLE_AT);
    assert Faithful(s1.m, MEMBER.arg, MEMBER_AT);
    assert STRUCT.table[0 := STRUCT.table[0]] == STRUCT.table;
    assert ObtainSlot(s2.m, ATTACHED.arg, ATTACHED_AT).m == STRUCT;
    assert Faithful(s2.m, ATTACHED.arg, ATTACHED_AT);
    assert FaithfulProg(s2, Scope(ATTACHED, ATTACHED_AT, Compute));
    assert FaithfulProg(s1, Scope(MEMBER, MEMBER_AT, Scope(ATTACHED, ATTACHED_AT, Compute)));
  }
}
