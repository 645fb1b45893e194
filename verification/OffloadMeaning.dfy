/**
 * Offloading preserves meaning: kernels that run on the device, inside regions that share their
 * data with it, do to host memory what they would do if they ran on the host.
 */
module OffloadMeaning {
  import opened Memory
  import opened MappingTable
  import opened MappingInvariants
  import opened TargetData
  import opened TableRestored
  import opened TableGrows

  // ----------------------------------------------------------- the claim

  ghost predicate Mapped(t: seq<Entry>, b: int) {
    exists i :: 0 <= i < |t| && t[i].begin <= b < t[i].end
  }

  /** The bytes a program sees: those of the device where host memory is mapped. */
  ghost function View(s: State): Mem {
    var t, dev, host := s.m.table, s.dev, s.host;
    b => if Mapped(t, b) then dev(Locate(t, b)) else host(b)
  }

  /** The program without its regions: every kernel runs on the host. */
  function OnHost(h: Mem, p: Prog): Mem
    decreases p
  {
    match p
    case Compute => h
    case Kernel(ks) => RunKernel(h, [], ks)
    case Scope(_, _, body) => OnHost(h, body)
    case Then(first, second) => OnHost(OnHost(h, first), second)
  }

  predicate Stays(k: Store, t: seq<Entry>) {
    && (exists i :: 0 <= i < |t| && t[i].begin <= k.at < t[i].end)
    && forall j :: 0 <= j < |k.from| ==> exists i :: 0 <= i < |t| && t[i].begin <= k.from[j] < t[i].end
  }

  /**
   * An argument by itself: TO and FROM if it is what maps the memory, and anything but ALWAYS or
   * DELETE if an enclosing region has mapped it.
   */
  predicate KeepsMeaning(t: seq<Entry>, a: Arg) {
    a.ty.Skipped() ||
    (&& !a.ty.delete && !a.ty.ptrAndObj && !a.ty.IsMember()
     && if Unmapped(t, a.begin, a.size) then a.size > 0 ==> a.ty.to && a.ty.from else !a.ty.always)
  }

  /** Kernels touch mapped memory only; every argument is shared both ways and granted as a whole. */
  ghost predicate Shares(s: State, p: Prog)
    decreases p
  {
    match p
    case Compute => true
    case Kernel(ks) => forall i :: 0 <= i < |ks| ==> Stays(ks[i], s.m.table)
    case Scope(it, c, body) =>
      KeepsMeaning(s.m.table, it.arg) && WholeRequests(s.m, it.arg, c) && Shares(BeginItem(s, it, c), body)
    case Then(first, second) => Shares(s, first) && Shares(Exec(s, first), second)
  }

  // -------------------------------------------------------------- kernels

  lemma {:induction false} LocateIn(t: seq<Entry>, i: nat, b: int)
    requires ValidTable(t) && i < |t| && t[i].begin <= b < t[i].end
    ensures Locate(t, b) == Translate(t[i], b)
  {
    if i > 0 {
      assert Separate(t[0], t[i]);
      var rest := t[1..];
      assert forall j, k {:trigger Separate(rest[j], rest[k])} ::
          0 <= j < k < |rest| ==> rest[j] == t[j + 1] && rest[k] == t[k + 1] && Separate(t[j + 1], t[k + 1]);
      LocateIn(rest, i - 1, b);
    }
  }

  lemma PlacesDiffer(t: seq<Entry>, a: int, b: int)
    requires ValidTable(t) && Mapped(t, a) && Mapped(t, b)
    ensures Locate(t, a) == Locate(t, b) <==> a == b
  {
    var i :| 0 <= i < |t| && t[i].begin <= a < t[i].end;
    var j :| 0 <= j < |t| && t[j].begin <= b < t[j].end;
    LocateIn(t, i, a);
    LocateIn(t, j, b);
    TranslationIsInjective(t, i, j, a, b);
  }

  lemma MappedIsSeen(s: State, b: int)
    requires Mapped(s.m.table, b)
    ensures View(s)(b) == s.dev(Locate(s.m.table, b))
  {
  }

  lemma StoreIsSeen(s: State, k: Store, b: int)
    requires ValidTable(s.m.table) && Stays(k, s.m.table)
    ensures View(s.(dev := Perform(s.dev, s.m.table, k)))(b) == Perform(View(s), [], k)(b)
  {
    var t := s.m.table;
    assert Mapped(t, k.at);
    assert Loaded(s.dev, t, k.from) == Loaded(View(s), [], k.from) by {
      forall j | 0 <= j < |k.from|
        ensures Loaded(s.dev, t, k.from)[j] == Loaded(View(s), [], k.from)[j]
      {
        var a := k.from[j];
        assert Mapped(t, a);
        MappedIsSeen(s, a);
        assert Locate([], a) == a;
      }
    }
    if Mapped(t, b) {
      PlacesDiffer(t, k.at, b);
    }
  }

  lemma SamePerform(h: Mem, h': Mem, k: Store)
    requires SameBytes(h, h')
    ensures SameBytes(Perform(h, [], k), Perform(h', [], k))
  {
    assert Loaded(h, [], k.from) == Loaded(h', [], k.from) by {
      forall j | 0 <= j < |k.from|
        ensures Loaded(h, [], k.from)[j] == Loaded(h', [], k.from)[j]
      {
        var a := k.from[j];
        assert h(a) == h'(a);
      }
    }
    forall a
      ensures Perform(h, [], k)(a) == Perform(h', [], k)(a)
    {
      assert h(a) == h'(a);
    }
  }

  lemma {:induction false} SameRun(h: Mem, h': Mem, ks: seq<Store>)
    requires SameBytes(h, h')
    ensures SameBytes(RunKernel(h, [], ks), RunKernel(h', [], ks))
    decreases |ks|
  {
    hide Perform, SameBytes;
    if |ks| > 0 {
      SamePerform(h, h', ks[0]);
      SameRun(Perform(h, [], ks[0]), Perform(h', [], ks[0]), ks[1..]);
    }
  }

  lemma SameThrough(h: Mem, g: Mem, f: Mem)
    requires SameBytes(h, g) && SameBytes(g, f)
    ensures SameBytes(h, f)
  {
    forall a
      ensures h(a) == f(a)
    {
      assert h(a) == g(a) && g(a) == f(a);
    }
  }

  /** A kernel on the device does to the view what it does to host memory. */
  lemma {:induction false} KernelIsSeen(s: State, ks: seq<Store>)
    requires ValidTable(s.m.table) && forall i :: 0 <= i < |ks| ==> Stays(ks[i], s.m.table)
    ensures SameBytes(View(s.(dev := RunKernel(s.dev, s.m.table, ks))), RunKernel(View(s), [], ks))
    decreases |ks|
  {
    hide Perform, Stays, View;
    if |ks| > 0 {
      var s1 := s.(dev := Perform(s.dev, s.m.table, ks[0]));
      assert SameBytes(View(s1), Perform(View(s), [], ks[0])) by {
        forall b
          ensures View(s1)(b) == Perform(View(s), [], ks[0])(b)
        {
          StoreIsSeen(s, ks[0], b);
        }
      }
      KernelIsSeen(s1, ks[1..]);
      SameRun(View(s1), Perform(View(s), [], ks[0]), ks[1..]);
      assert s1.(dev := RunKernel(s1.dev, s.m.table, ks[1..])) == s.(dev := RunKernel(s.dev, s.m.table, ks));
      SameThrough(View(s.(dev := RunKernel(s.dev, s.m.table, ks))), RunKernel(View(s1), [], ks[1..]),
                  RunKernel(View(s), [], ks));
    } else {
      assert s.(dev := RunKernel(s.dev, s.m.table, ks)) == s;
      SelfSame(View(s));
    }
  }

  lemma SelfSame(h: Mem)
    ensures SameBytes(h, h)
  {
  }

  // --------------------------------------------------- begins and ends

  lemma {:induction false} SameRangesSamePlace(t: seq<Entry>, t': seq<Entry>, b: int)
    requires |t| == |t'|
    requires forall i :: 0 <= i < |t| ==>
      t[i].begin == t'[i].begin && t[i].end == t'[i].end && t[i].tgt == t'[i].tgt
    ensures Mapped(t, b) <==> Mapped(t', b)
    ensures Locate(t, b) == Locate(t', b)
  {
    if |t| > 0 {
      SameRangesSamePlace(t[1..], t'[1..], b);
      TailMapped(t, b);
      TailMapped(t', b);
    }
  }

  lemma TailMapped(t: seq<Entry>, b: int)
    requires |t| > 0
    ensures Mapped(t, b) <==> t[0].begin <= b < t[0].end || Mapped(t[1..], b)
  {
    if Mapped(t, b) {
      var i :| 0 <= i < |t| && t[i].begin <= b < t[i].end;
      assert i > 0 ==> t[1..][i - 1] == t[i];
    }
    if Mapped(t[1..], b) {
      var i :| 0 <= i < |t[1..]| && t[1..][i].begin <= b < t[1..][i].end;
      assert t[i + 1] == t[1..][i];
    }
  }

  /** What the begin of a shared argument does. */
  lemma SharedBegin(s: State, it: Item, c: Choice)
    requires KeepsMeaning(s.m.table, it.arg) && WholeRequests(s.m, it.arg, c) && !it.arg.ty.Skipped()
    ensures var a, t, s', k := it.arg, s.m.table, BeginItem(s, it, c), FirstHit(s.m.table, it.arg.begin, it.arg.size);
      && s'.host == s.host && s'.shadow == s.shadow
      && (if k < |t| then
            s'.m.table == t[k := t[k].(rc := t[k].rc + 1)] && s'.dev == s.dev && Contained(t[k], a.begin, a.size)
          else if a.size > 0 then
            && s'.m.table == [Entry(a.base, a.begin, a.begin + a.size, c.objAddr, 1)] + t
            && s'.dev == Copy(s.dev, c.objAddr, s.host, a.begin, a.size)
            && FreeOnDevice(s.m, c.objAddr, a.size)
          else s'.m == s.m && SameBytes(s'.dev, s.dev))
  {
  }

  lemma OutsideIsUnmapped(t: seq<Entry>, lo: int, n: nat, b: int)
    requires ValidTable(t) && Unmapped(t, lo, n) && lo <= b < lo + n
    ensures !Mapped(t, b)
  {
    forall i | 0 <= i < |t|
      ensures !(t[i].begin <= b < t[i].end)
    {
      assert !Hit(t[i], lo, n);
    }
  }

  lemma FreeIsElsewhere(m: Mapping, addr: int, size: nat, b: int)
    requires ValidTable(m.table) && FreeOnDevice(m, addr, size) && Mapped(m.table, b)
    ensures !(addr <= Locate(m.table, b) < addr + size)
  {
    var i :| 0 <= i < |m.table| && m.table[i].begin <= b < m.table[i].end;
    LocateIn(m.table, i, b);
    assert Apart(addr, addr + size, m.table[i].tgt, m.table[i].tgt + Len(m.table[i]));
  }

  /** Beginning a shared argument changes nothing in the view. */
  lemma BeginIsUnseen(s: State, it: Item, c: Choice, b: int)
    requires Inv(s.m) && KeepsMeaning(s.m.table, it.arg) && WholeRequests(s.m, it.arg, c)
    ensures View(BeginItem(s, it, c))(b) == View(s)(b)
  {
    hide WholeRequests, Mapped, Locate, FreeOnDevice, ValidTable;
    var a, t, s' := it.arg, s.m.table, BeginItem(s, it, c);
    if !a.ty.Skipped() {
      SharedBegin(s, it, c);
      hide BeginItem;
      if FirstHit(t, a.begin, a.size) < |t| {
        SameRangesSamePlace(t, s'.m.table, b);
      } else if a.size > 0 {
        TailMapped(s'.m.table, b);
        assert s'.m.table[1..] == t;
        LocateStep(s'.m.table, b);
        if a.begin <= b < a.begin + a.size {
          OutsideIsUnmapped(t, a.begin, a.size, b);
        } else if Mapped(t, b) {
          FreeIsElsewhere(s.m, c.objAddr, a.size, b);
        }
      } else {
        assert s'.dev(Locate(t, b)) == s.dev(Locate(t, b));
      }
    }
  }

  lemma LocateStep(t: seq<Entry>, b: int)
    requires |t| > 0
    ensures Locate(t, b) == if t[0].begin <= b < t[0].end then t[0].tgt + (b - t[0].begin) else Locate(t[1..], b)
  {
  }

  lemma {:induction false} NoShadowNoRestore(h: Mem, lo: int, n: nat)
    ensures Restore(h, map[], lo, n) == h
    decreases n
  {
    if n > 0 {
      NoShadowNoRestore(h, lo, n - 1);
    }
  }

  lemma SharedIsAccepted(s: State, it: Item, c: Choice)
    requires Inv(s.m) && KeepsMeaning(s.m.table, it.arg) && WholeRequests(s.m, it.arg, c)
    ensures Accepted(s.m, it.arg, c)
  {
    var a := it.arg;
    if !a.ty.Skipped() && a.size > 0 && Unmapped(s.m.table, a.begin, a.size) {
      FreshBlock(s.m, c.objAddr, a.size);
    }
  }

  lemma FreshBlock(m: Mapping, addr: int, size: nat)
    requires Inv(m) && FreeOnDevice(m, addr, size) && size > 0
    ensures addr !in m.blocks
  {
    assert !HasImage(m.table, addr) by {
      forall i | 0 <= i < |m.table|
        ensures m.table[i].tgt != addr
      {
        assert Apart(addr, addr + size, m.table[i].tgt, m.table[i].tgt + Len(m.table[i]));
      }
    }
  }

  /** What the end of a shared argument does in the table its begin has left. */
  lemma SharedEnd(s: State, s2: State, it: Item, c: Choice)
    requires Inv(s.m) && KeepsMeaning(s.m.table, it.arg) && WholeRequests(s.m, it.arg, c) && !it.arg.ty.Skipped()
    requires s2.m == BeginItem(s, it, c).m && s2.shadow == map[]
    ensures var a, t, s3 := it.arg, s.m.table, EndItem(s2, it);
      && s3.m == s.m && s3.dev == s2.dev && s3.shadow == map[]
      && (if FirstHit(t, a.begin, a.size) < |t| then s3.host == s2.host
          else SameBytes(s3.host, Copy(s2.host, a.begin, s2.dev, c.objAddr, a.size)))
  {
    hide WholeRequests, Copy, ValidTable, BlocksMatch;
    var a := it.arg;
    SharedIsAccepted(s, it, c);
    PositiveOf(s.m);
    EndUndoesBegin(s, s2, it, c);
    var l := LookupForEnd(s2.m, a);
    EndSees(s, it, c);
    var host := if CopiesOut(l, it) then Copy(s2.host, a.begin, s2.dev, l.tp, a.size) else s2.host;
    NoShadowNoRestore(host, a.begin, a.size);
    if FirstHit(s.m.table, a.begin, a.size) == |s.m.table| && a.size == 0 {
      EmptyCopies(s2.host, a.begin, s2.dev, l.tp, c.objAddr);
    }
  }

  lemma EmptyCopies(h: Mem, lo: int, dev: Mem, d: int, e: int)
    ensures SameBytes(h, Copy(h, lo, dev, e, 0)) && SameBytes(Copy(h, lo, dev, d, 0), Copy(h, lo, dev, e, 0))
  {
  }

  lemma PositiveOf(m: Mapping)
    requires Inv(m)
    ensures Positive(m.table)
  {
  }

  /** What the ending lookup finds. */
  lemma EndSees(s: State, it: Item, c: Choice)
    requires Inv(s.m) && KeepsMeaning(s.m.table, it.arg) && WholeRequests(s.m, it.arg, c) && !it.arg.ty.Skipped()
    ensures var a, t, l := it.arg, s.m.table, LookupForEnd(BeginItem(s, it, c).m, it.arg);
      if FirstHit(t, a.begin, a.size) < |t| then !Deletes(l, a) && !CopiesOut(l, it)
      else if a.size > 0 then Deletes(l, a) && CopiesOut(l, it) && l.tp == c.objAddr
      else !Deletes(l, a)
  {
    hide BlocksMatch;
    var a, t, t' := it.arg, s.m.table, BeginItem(s, it, c).m.table;
    SharedBegin(s, it, c);
    var k := FirstHit(t, a.begin, a.size);
    if k < |t| {
      SameRangesSameHit(t, t', a.begin, a.size);
    } else if a.size > 0 {
      assert Hit(t'[0], a.begin, a.size);
    } else {
      assert t' == t;
    }
  }

  /** The view of a byte, from the front entry on. */
  lemma SeenFromFront(s: State, b: int)
    requires |s.m.table| > 0
    ensures var e, t := s.m.table[0], s.m.table[1..];
      View(s)(b) ==
        if e.begin <= b < e.end then s.dev(e.tgt + (b - e.begin))
        else if Mapped(t, b) then s.dev(Locate(t, b)) else s.host(b)
  {
    hide Mapped, Locate;
    TailMapped(s.m.table, b);
    LocateStep(s.m.table, b);
  }

  /** Giving up the front entry after its bytes were copied back. */
  lemma FrontIsGivenUp(s2: State, s3: State, lo: int, n: nat, b: int)
    requires |s2.m.table| > 0 && s3.m.table == s2.m.table[1..] && s3.dev == s2.dev
    requires var e := s2.m.table[0];
      && e.begin == lo && e.end == lo + n
      && s3.host(b) == Copy(s2.host, lo, s2.dev, e.tgt, n)(b)
    requires ValidTable(s3.m.table) && Unmapped(s3.m.table, lo, n)
    ensures View(s3)(b) == View(s2)(b)
  {
    hide Mapped, Locate, View, ValidTable;
    SeenFromFront(s2, b);
    if lo <= b < lo + n {
      OutsideIsUnmapped(s3.m.table, lo, n, b);
    }
    ViewIs(s3, b);
  }

  lemma ViewIs(s: State, b: int)
    ensures View(s)(b) == if Mapped(s.m.table, b) then s.dev(Locate(s.m.table, b)) else s.host(b)
  {
  }

  /** Ending it changes nothing in the view either. */
  lemma EndIsUnseen(s: State, s2: State, it: Item, c: Choice, b: int)
    requires Inv(s.m) && KeepsMeaning(s.m.table, it.arg) && WholeRequests(s.m, it.arg, c)
    requires s2.m == BeginItem(s, it, c).m && s2.shadow == map[]
    ensures View(EndItem(s2, it))(b) == View(s2)(b)
    ensures EndItem(s2, it).m == s.m && EndItem(s2, it).shadow == map[]
  {
    hide WholeRequests, Mapped, Locate, View, FreeOnDevice, ValidTable, Copy;
    var a, t, s3 := it.arg, s.m.table, EndItem(s2, it);
    if !a.ty.Skipped() {
      SharedBegin(s, it, c);
      SharedEnd(s, s2, it, c);
      hide BeginItem, EndItem, KeepsMeaning;
      if FirstHit(t, a.begin, a.size) < |t| {
        SameRangesSamePlace(t, s2.m.table, b);
        ViewIs(s2, b);
        ViewIs(s3, b);
      } else {
        assert s3.host(b) == Copy(s2.host, a.begin, s2.dev, c.objAddr, a.size)(b);
        if a.size > 0 {
          assert s2.m.table[1..] == t;
          FrontIsGivenUp(s2, s3, a.begin, a.size, b);
        } else {
          NothingCopied(s2.host, a.begin, s2.dev, c.objAddr, b);
          ViewIs(s2, b);
          ViewIs(s3, b);
        }
      }
    }
  }

  lemma NothingCopied(h: Mem, lo: int, dev: Mem, d: int, b: int)
    ensures Copy(h, lo, dev, d, 0)(b) == h(b)
  {
  }

  // ------------------------------------------------------------- the result

  lemma {:induction false} SameOnHost(h: Mem, h': Mem, p: Prog)
    requires SameBytes(h, h')
    ensures SameBytes(OnHost(h, p), OnHost(h', p))
    decreases p
  {
    hide SameBytes;
    match p
    case Compute =>
    case Kernel(ks) => SameRun(h, h', ks);
    case Scope(_, _, body) => SameOnHost(h, h', body);
    case Then(first, second) =>
      SameOnHost(h, h', first);
      SameOnHost(OnHost(h, first), OnHost(h', first), second);
  }

  lemma SharedBeginIsSound(s: State, it: Item, c: Choice)
    requires Inv(s.m) && KeepsMeaning(s.m.table, it.arg) && WholeRequests(s.m, it.arg, c)
    ensures Inv(BeginItem(s, it, c).m) && BeginItem(s, it, c).shadow == s.shadow
    ensures SameBytes(View(BeginItem(s, it, c)), View(s))
  {
    hide View, WholeRequests;
    BeginKeepsTables(s, it, c);
    forall b
      ensures View(BeginItem(s, it, c))(b) == View(s)(b)
    {
      BeginIsUnseen(s, it, c, b);
    }
  }

  lemma SharedEndIsSound(s: State, s2: State, it: Item, c: Choice)
    requires Inv(s.m) && KeepsMeaning(s.m.table, it.arg) && WholeRequests(s.m, it.arg, c)
    requires s2.m == BeginItem(s, it, c).m && s2.shadow == map[]
    ensures EndItem(s2, it).m == s.m && EndItem(s2, it).shadow == map[]
    ensures SameBytes(View(EndItem(s2, it)), View(s2))
  {
    hide View, WholeRequests, BeginItem, EndItem;
    EndIsUnseen(s, s2, it, c, 0);
    forall b
      ensures View(EndItem(s2, it))(b) == View(s2)(b)
    {
      EndIsUnseen(s, s2, it, c, b);
    }
  }

  /** Running a program with its regions is, to the view, running its kernels on the host. */
  lemma {:induction false} RegionsAreTransparent(s: State, p: Prog)
    requires Inv(s.m) && s.shadow == map[] && Shares(s, p)
    ensures Exec(s, p).m == s.m && Exec(s, p).shadow == map[]
    ensures SameBytes(View(Exec(s, p)), OnHost(View(s), p))
    decreases p
  {
    hide BeginItem, EndItem, View, SameBytes, KeepsMeaning, WholeRequests;
    match p
    case Compute =>
      SelfSame(View(s));
    case Kernel(ks) =>
      SplitValid(s.m);
      KernelIsSeen(s, ks);
    case Then(first, second) =>
      RegionsAreTransparent(s, first);
      RegionsAreTransparent(Exec(s, first), second);
      SameOnHost(View(Exec(s, first)), OnHost(View(s), first), second);
      SameThrough(View(Exec(s, p)), OnHost(View(Exec(s, first)), second), OnHost(View(s), p));
    case Scope(it, c, body) =>
      var s1 := BeginItem(s, it, c);
      var s2 := Exec(s1, body);
      SharedBeginIsSound(s, it, c);
      RegionsAreTransparent(s1, body);
      SharedEndIsSound(s, s2, it, c);
      SameOnHost(View(s1), View(s), body);
      SameThrough(View(Exec(s, p)), View(s2), OnHost(View(s1), body));
      SameThrough(View(Exec(s, p)), OnHost(View(s1), body), OnHost(View(s), p));
  }

  lemma SplitValid(m: Mapping)
    requires Inv(m)
    ensures ValidTable(m.table)
  {
  }

  /** With nothing mapped before, host memory ends up as if every kernel had run on the host. */
  lemma OffloadingPreservesMeaning(s: State, p: Prog)
    requires s.m.table == [] && s.m.blocks == map[] && s.shadow == map[] && Shares(s, p)
    ensures Exec(s, p).m == s.m
    ensures SameBytes(Exec(s, p).host, OnHost(s.host, p))
  {
    hide SameBytes, Shares, Exec;
    RegionsAreTransparent(s, p);
    NothingMapped(s);
    NothingMapped(Exec(s, p));
    SameOnHost(View(s), s.host, p);
    SameThrough(View(Exec(s, p)), OnHost(View(s), p), OnHost(s.host, p));
    SameThrough(Exec(s, p).host, View(Exec(s, p)), OnHost(s.host, p));
  }

  lemma NothingMapped(s: State)
    requires s.m.table == []
    ensures SameBytes(View(s), s.host) && SameBytes(s.host, View(s))
  {
  }
}
