/**
 * Threads that open and close data regions concurrently. Every critical section under
 * DataMapMtx is one atomic step: the reference a begin takes, the lookup that starts an
 * end, and the deallocation that finishes an end whose lookup answered IsLast. A run is
 * any sequence of such steps, so it covers every interleaving.
 */
module MappingThreads {
  import opened MappingTable
  import opened MappingInvariants

  /** Open: begun. Closing: the end has been told IsLast and still owes the deallocation. */
  datatype Phase = Open | Closing

  datatype Region = Region(hp: int, size: nat, phase: Phase)

  /** The shared table and, by a number of their own, the regions that are not fully ended. */
  datatype World = World(m: Mapping, regions: map<nat, Region>)

  datatype Event =
    | BeginRegion(id: nat, hp: int, base: int, size: nat, implicit: bool, addr: int)
    | EndLookup(id: nat)
    | EndDealloc(id: nat)

  predicate In(e: Entry, r: Region) {
    Contained(e, r.hp, r.size)
  }

  /** Which events can happen, and that mapped ranges lie inside one entry. */
  ghost predicate Enabled(w: World, ev: Event) {
    match ev
    case BeginRegion(id, hp, base, size, implicit, addr) =>
      var k := FirstHit(w.m.table, hp, size);
      && id !in w.regions
      && (k < |w.m.table| && implicit ==> Contained(w.m.table[k], hp, size))
      && (k == |w.m.table| && size != 0 ==> FreeOnDevice(w.m, addr, size))
    case EndLookup(id) => id in w.regions && w.regions[id].phase.Open?
    case EndDealloc(id) => id in w.regions && w.regions[id].phase.Closing?
  }

  function Next(w: World, ev: Event): World
    requires Enabled(w, ev)
  {
    match ev
    case BeginRegion(id, hp, base, size, implicit, addr) =>
      var g := GetOrAlloc(w.m, hp, base, size, implicit, true, addr);
      World(g.m, if g.isNew.Unset? then w.regions else w.regions[id := Region(hp, size, Open)])
    case EndLookup(id) =>
      var r := w.regions[id];
      var l := GetTgtPtr(w.m, r.hp, r.size, true);
      World(l.m, if l.isLast then w.regions[id := r.(phase := Closing)] else w.regions - {id})
    case EndDealloc(id) =>
      var r := w.regions[id];
      World(Dealloc(w.m, r.hp, r.size, false).m, w.regions - {id})
  }

  /** The regions that are not fully ended and lie in e. */
  function Users(regions: map<nat, Region>, e: Entry): set<nat> {
    set id | id in regions && In(e, regions[id])
  }

  ghost predicate Counted(t: seq<Entry>, regions: map<nat, Region>) {
    forall i {:trigger Users(regions, t[i])} :: 0 <= i < |t| ==> t[i].rc == |Users(regions, t[i])|
  }

  ghost predicate Mapped(t: seq<Entry>, regions: map<nat, Region>) {
    forall id {:trigger InSome(t, regions[id])} :: id in regions ==> InSome(t, regions[id])
  }

  ghost predicate InSome(t: seq<Entry>, r: Region) {
    exists i :: 0 <= i < |t| && In(t[i], r)
  }

  predicate Closes(e: Entry, regions: map<nat, Region>, id: nat) {
    id in regions && In(e, regions[id]) && regions[id].phase.Closing?
  }

  ghost predicate OneCloser(t: seq<Entry>, regions: map<nat, Region>) {
    forall i, id, id' {:trigger Closes(t[i], regions, id), Closes(t[i], regions, id')} ::
      0 <= i < |t| && Closes(t[i], regions, id) && Closes(t[i], regions, id') ==> id == id'
  }

  ghost predicate AllOwned(m: Mapping) {
    forall i :: 0 <= i < |m.table| ==> Owned(m, m.table[i])
  }

  ghost predicate Tracks(t: seq<Entry>, regions: map<nat, Region>) {
    Counted(t, regions) && Mapped(t, regions) && OneCloser(t, regions)
  }

  /** The reference counts are exactly the regions that are not fully ended. */
  ghost predicate Consistent(w: World) {
    Inv(w.m) && AllOwned(w.m) && Tracks(w.m.table, w.regions)
  }

  lemma InOneEntry(t: seq<Entry>, i: nat, j: nat, r: Region)
    requires ValidTable(t) && i < |t| && j < |t| && In(t[i], r) && In(t[j], r)
    ensures i == j
  {
    ContainedIsFound(t, r.hp, r.size, i);
    ContainedIsFound(t, r.hp, r.size, j);
  }

  lemma OneUser(s: set<nat>, id: nat)
    requires id in s && |s| == 1
    ensures s == {id}
  {
    assert |s - {id}| == 0;
  }

  /** The one entry an unfinished region lies in. */
  lemma EntryOf(t: seq<Entry>, regions: map<nat, Region>, id: nat) returns (k: nat)
    requires ValidTable(t) && Mapped(t, regions) && id in regions
    ensures k < |t| && In(t[k], regions[id])
    ensures k == FirstHit(t, regions[id].hp, regions[id].size)
    ensures forall i :: 0 <= i < |t| ==> (In(t[i], regions[id]) <==> i == k)
  {
    assert InSome(t, regions[id]);
    k :| 0 <= k < |t| && In(t[k], regions[id]);
    ContainedIsFound(t, regions[id].hp, regions[id].size, k);
    forall i | 0 <= i < |t| && In(t[i], regions[id])
      ensures i == k
    {
      InOneEntry(t, i, k, regions[id]);
    }
  }

  // ------------------------------------------------------------ the steps

  function Recount(t: seq<Entry>, k: nat, rc: int): (t': seq<Entry>)
    requires k < |t|
    ensures |t'| == |t| && t'[k].rc == rc
    ensures forall i :: 0 <= i < |t| ==> t'[i].begin == t[i].begin && t'[i].end == t[i].end
    ensures forall i :: 0 <= i < |t| && i != k ==> t'[i] == t[i]
  {
    t[k := t[k].(rc := rc)]
  }

  lemma UsersOfRange(regions: map<nat, Region>, e: Entry, f: Entry)
    requires e.begin == f.begin && e.end == f.end
    ensures Users(regions, e) == Users(regions, f)
  {
  }

  /** A new count for entry k that fits the regions' new state keeps the table tracking them. */
  lemma RecountTracks(t: seq<Entry>, k: nat, rc: int, regions: map<nat, Region>, regions': map<nat, Region>)
    requires Counted(t, regions) && k < |t|
    requires rc == |Users(regions', t[k])|
    requires forall i :: 0 <= i < |t| && i != k ==> Users(regions', t[i]) == Users(regions, t[i])
    requires Mapped(t, regions') && OneCloser(t, regions')
    ensures Tracks(Recount(t, k, rc), regions')
  {
    var t' := Recount(t, k, rc);
    forall i | 0 <= i < |t'|
      ensures t'[i].rc == |Users(regions', t'[i])|
    {
      UsersOfRange(regions', t'[i], t[i]);
    }
    forall id | id in regions'
      ensures InSome(t', regions'[id])
    {
      assert InSome(t, regions'[id]);
      var i :| 0 <= i < |t| && In(t[i], regions'[id]);
      assert In(t'[i], regions'[id]);
    }
    forall i, id, id' | 0 <= i < |t'| && Closes(t'[i], regions', id) && Closes(t'[i], regions', id')
      ensures id == id'
    {
      assert Closes(t[i], regions', id) && Closes(t[i], regions', id');
    }
  }

  lemma JoinTracks(t: seq<Entry>, regions: map<nat, Region>, id: nat, r: Region, k: nat)
    requires ValidTable(t) && Tracks(t, regions)
    requires k < |t| && In(t[k], r) && id !in regions && r.phase.Open?
    ensures Tracks(Recount(t, k, t[k].rc + 1), regions[id := r])
  {
    var regions' := regions[id := r];
    forall i | 0 <= i < |t|
      ensures Users(regions', t[i]) == Users(regions, t[i]) + if i == k then {id} else {}
    {
      if i != k && In(t[i], r) {
        InOneEntry(t, i, k, r);
      }
    }
    forall i, id1, id2 | 0 <= i < |t| && Closes(t[i], regions', id1) && Closes(t[i], regions', id2)
      ensures id1 == id2
    {
      assert Closes(t[i], regions, id1) && Closes(t[i], regions, id2);
    }
    RecountTracks(t, k, t[k].rc + 1, regions, regions');
  }

  lemma OpenTracks(t: seq<Entry>, regions: map<nat, Region>, id: nat, e: Entry)
    requires e.begin < e.end && ValidTable([e] + t) && Tracks(t, regions) && id !in regions && e.rc == 1
    ensures Tracks([e] + t, regions[id := Region(e.begin, Len(e), Open)])
  {
    var t' := [e] + t;
    var r := Region(e.begin, Len(e), Open);
    var regions' := regions[id := r];
    assert forall i :: 0 <= i < |t| ==> t'[i + 1] == t[i];
    assert In(t'[0], r);
    forall i | 0 <= i < |t|
      ensures !In(t[i], r)
      ensures Users(regions', t[i]) == Users(regions, t[i])
    {
      assert Separate(t'[0], t'[i + 1]);
    }
    forall other | other in regions
      ensures InSome(t', regions[other]) && !In(e, regions[other])
    {
      assert InSome(t, regions[other]);
      var i :| 0 <= i < |t| && In(t[i], regions[other]);
      assert In(t'[i + 1], regions[other]);
      assert Separate(t'[0], t'[i + 1]);
    }
    assert Users(regions', e) == {id};
    assert Mapped(t', regions');
    forall i, id1, id2 | 0 <= i < |t'| && Closes(t'[i], regions', id1) && Closes(t'[i], regions', id2)
      ensures id1 == id2
    {
      if i > 0 {
        assert t'[i] == t[i - 1];
        assert Closes(t[i - 1], regions, id1) && Closes(t[i - 1], regions, id2);
      }
    }
  }

  /** The same event as an operation on the table alone. */
  function OpOf(w: World, ev: Event): Op
    requires ev.BeginRegion? || ev.id in w.regions
  {
    match ev
    case BeginRegion(_, hp, base, size, implicit, addr) => Begin(hp, base, size, implicit, true, addr)
    case EndLookup(id) => Lookup(w.regions[id].hp, w.regions[id].size, true)
    case EndDealloc(id) => Release(w.regions[id].hp, w.regions[id].size, false)
  }

  lemma TableStaysSound(w: World, ev: Event)
    requires Inv(w.m) && AllOwned(w.m) && Enabled(w, ev)
    ensures Inv(Next(w, ev).m) && AllOwned(Next(w, ev).m)
  {
    var op := OpOf(w, ev);
    assert Next(w, ev).m == Step(w.m, op);
    StepKeepsInv(w.m, op);
    if Erases(w.m, op) {
      EraseKeepsOwned(w.m, FirstHit(w.m.table, op.hp, op.size));
    }
  }

  lemma BeginTracks(w: World, ev: Event)
    requires ValidTable(w.m.table) && Tracks(w.m.table, w.regions) && ev.BeginRegion? && Enabled(w, ev)
    requires ValidTable(Next(w, ev).m.table)
    ensures Tracks(Next(w, ev).m.table, Next(w, ev).regions)
  {
    var k := FirstHit(w.m.table, ev.hp, ev.size);
    if k < |w.m.table| && Contained(w.m.table[k], ev.hp, ev.size) {
      JoinTracks(w.m.table, w.regions, ev.id, Region(ev.hp, ev.size, Open), k);
    } else if k == |w.m.table| && ev.size != 0 {
      OpenTracks(w.m.table, w.regions, ev.id, Entry(ev.base, ev.hp, ev.hp + ev.size, ev.addr, 1));
    }
  }

  lemma LeaveTracks(t: seq<Entry>, regions: map<nat, Region>, id: nat, k: nat)
    requires ValidTable(t) && Tracks(t, regions) && id in regions && k < |t| && In(t[k], regions[id])
    ensures Tracks(Recount(t, k, t[k].rc - 1), regions - {id})
  {
    var regions' := regions - {id};
    var k' := EntryOf(t, regions, id);
    forall i | 0 <= i < |t|
      ensures Users(regions', t[i]) == Users(regions, t[i]) - {id}
    {
    }
    assert id in Users(regions, t[k]);
    forall i, id1, id2 | 0 <= i < |t| && Closes(t[i], regions', id1) && Closes(t[i], regions', id2)
      ensures id1 == id2
    {
      assert Closes(t[i], regions, id1) && Closes(t[i], regions, id2);
    }
    RecountTracks(t, k, t[k].rc - 1, regions, regions');
  }

  lemma CloseTracks(t: seq<Entry>, regions: map<nat, Region>, id: nat, k: nat)
    requires ValidTable(t) && Tracks(t, regions) && id in regions && k < |t| && In(t[k], regions[id])
    requires t[k].rc == 1
    ensures Tracks(t, regions[id := regions[id].(phase := Closing)])
  {
    hide ValidTable, Contained;
    var regions' := regions[id := regions[id].(phase := Closing)];
    var k' := EntryOf(t, regions, id);
    OneUser(Users(regions, t[k]), id);
    forall i | 0 <= i < |t|
      ensures Users(regions', t[i]) == Users(regions, t[i])
    {
    }
    forall id' | id' in regions'
      ensures InSome(t, regions'[id'])
    {
      assert InSome(t, regions[id']);
      var i :| 0 <= i < |t| && In(t[i], regions[id']);
      assert In(t[i], regions'[id']);
    }
    forall i, id1, id2 | 0 <= i < |t| && Closes(t[i], regions', id1) && Closes(t[i], regions', id2)
      ensures id1 == id2
    {
      if i == k {
        assert {id1, id2} <= Users(regions, t[k]);
      } else {
        assert Closes(t[i], regions, id1) && Closes(t[i], regions, id2);
      }
    }
  }

  lemma EndLookupTracks(w: World, ev: Event)
    requires ValidTable(w.m.table) && Tracks(w.m.table, w.regions) && ev.EndLookup? && Enabled(w, ev)
    ensures Tracks(Next(w, ev).m.table, Next(w, ev).regions)
  {
    var k := EntryOf(w.m.table, w.regions, ev.id);
    if w.m.table[k].rc > 1 {
      LeaveTracks(w.m.table, w.regions, ev.id, k);
    } else {
      CloseTracks(w.m.table, w.regions, ev.id, k);
    }
  }

  lemma VanishTracks(t: seq<Entry>, regions: map<nat, Region>, id: nat, k: nat)
    requires ValidTable(t) && Tracks(t, regions) && id in regions && k < |t| && In(t[k], regions[id])
    requires t[k].rc == 1
    ensures Users(regions, t[k]) == {id}
    ensures Tracks(Erase(t, k), regions - {id})
  {
    var t', regions' := Erase(t, k), regions - {id};
    var k' := EntryOf(t, regions, id);
    OneUser(Users(regions, t[k]), id);
    assert forall i :: 0 <= i < |t'| ==> t'[i] == t[if i < k then i else i + 1];
    forall i | 0 <= i < |t'|
      ensures Users(regions', t'[i]) == Users(regions, t'[i])
    {
      assert !In(t[if i < k then i else i + 1], regions[id]);
    }
    forall id' | id' in regions'
      ensures InSome(t', regions'[id'])
    {
      assert id' !in Users(regions, t[k]);
      assert InSome(t, regions[id']);
      var i :| 0 <= i < |t| && In(t[i], regions[id']);
      assert t'[if i < k then i else i - 1] == t[i];
    }
    forall i, id1, id2 | 0 <= i < |t'| && Closes(t'[i], regions', id1) && Closes(t'[i], regions', id2)
      ensures id1 == id2
    {
      var i' := if i < k then i else i + 1;
      assert Closes(t[i'], regions, id1) && Closes(t[i'], regions, id2);
    }
  }

  lemma EraseKeepsOwned(m: Mapping, k: nat)
    requires Inv(m) && AllOwned(m) && k < |m.table|
    ensures AllOwned(Mapping(Erase(m.table, k), m.blocks - {m.table[k].tgt}))
  {
    EraseKeepsTable(m.table, k);
    forall i | 0 <= i < |Erase(m.table, k)|
      ensures Erase(m.table, k)[i].tgt in m.blocks - {m.table[k].tgt}
    {
      assert Erase(m.table, k)[i] in Erase(m.table, k);
    }
  }

  lemma EndDeallocTracks(w: World, ev: Event)
    requires ValidTable(w.m.table) && Tracks(w.m.table, w.regions) && ev.EndDealloc? && Enabled(w, ev)
    ensures Tracks(Next(w, ev).m.table, Next(w, ev).regions)
  {
    var k := EntryOf(w.m.table, w.regions, ev.id);
    if w.m.table[k].rc > 1 {
      LeaveTracks(w.m.table, w.regions, ev.id, k);
    } else {
      VanishTracks(w.m.table, w.regions, ev.id, k);
    }
  }

  lemma NextStaysConsistent(w: World, ev: Event)
    requires Consistent(w) && Enabled(w, ev)
    ensures Consistent(Next(w, ev))
  {
    TableStaysSound(w, ev);
    match ev
    case BeginRegion(_, _, _, _, _, _) => BeginTracks(w, ev);
    case EndLookup(_) => EndLookupTracks(w, ev);
    case EndDealloc(_) => EndDeallocTracks(w, ev);
  }

  // ------------------------------------------------------------- all runs

  const Start := World(Mapping([], map[]), map[])

  ghost predicate Schedule(w: World, evs: seq<Event>)
    decreases |evs|
  {
    evs == [] || (Enabled(w, evs[0]) && Schedule(Next(w, evs[0]), evs[1..]))
  }

  ghost function After(w: World, evs: seq<Event>): World
    requires Schedule(w, evs)
    decreases |evs|
  {
    if evs == [] then w else After(Next(w, evs[0]), evs[1..])
  }

  lemma {:induction false} AfterIsConsistent(w: World, evs: seq<Event>)
    requires Consistent(w) && Schedule(w, evs)
    ensures Consistent(After(w, evs))
    decreases |evs|
  {
    if evs != [] {
      NextStaysConsistent(w, evs[0]);
      AfterIsConsistent(Next(w, evs[0]), evs[1..]);
    }
  }

  /** After any interleaving every count is the number of begins that are not fully ended. */
  lemma CountsAreOutstandingRegions(evs: seq<Event>, i: nat)
    requires Schedule(Start, evs) && i < |After(Start, evs).m.table|
    ensures var w := After(Start, evs);
            w.m.table[i].rc == |Users(w.regions, w.m.table[i])| >= 1
  {
    AfterIsConsistent(Start, evs);
  }

  /**
   * In any interleaving a deallocation finds its entry, and the count it brings down does
   * not become negative, so the assertion in deallocTgtPtr cannot fire.
   */
  lemma DeallocFindsItsEntry(evs: seq<Event>, id: nat)
    requires Schedule(Start, evs) && Enabled(After(Start, evs), EndDealloc(id))
    ensures var w := After(Start, evs);
            var r := w.regions[id];
            var k := FirstHit(w.m.table, r.hp, r.size);
            && Dealloc(w.m, r.hp, r.size, false).ok
            && k < |w.m.table| && In(w.m.table[k], r) && w.m.table[k].rc - 1 >= 0
  {
    AfterIsConsistent(Start, evs);
    var w := After(Start, evs);
    var k := EntryOf(w.m.table, w.regions, id);
  }

  /** The table has an entry for the range of e. */
  predicate Maps(t: seq<Entry>, e: Entry) {
    exists i :: 0 <= i < |t| && SameRange(t[i], e)
  }

  predicate SameRange(e: Entry, f: Entry) {
    e.begin == f.begin && e.end == f.end
  }

  lemma ErasedIsGone(t: seq<Entry>, k: nat, i: nat)
    requires ValidTable(t) && k < |t| && i < |t|
    ensures Maps(Erase(t, k), t[i]) <==> i != k
  {
    var t' := Erase(t, k);
    if i != k {
      assert t'[if i < k then i else i - 1] == t[i];
    } else {
      forall j | 0 <= j < |t'|
        ensures !SameRange(t'[j], t[k])
      {
        var j' := if j < k then j else j + 1;
        assert t'[j] == t[j'];
        assert if j' < k then Separate(t[j'], t[k]) else Separate(t[k], t[j']);
      }
    }
  }

  /**
   * In any interleaving an entry disappears in a step if and only if that step is the
   * deallocation of the only region still using it.
   */
  lemma RemovedExactlyByTheLast(evs: seq<Event>, ev: Event, i: nat)
    requires Schedule(Start, evs) && Enabled(After(Start, evs), ev) && i < |After(Start, evs).m.table|
    ensures var w := After(Start, evs);
            !Maps(Next(w, ev).m.table, w.m.table[i])
            <==> ev.EndDealloc? && Users(w.regions, w.m.table[i]) == {ev.id}
  {
    var w := After(Start, evs);
    AfterIsConsistent(Start, evs);
    if ev.EndDealloc? {
      DeallocRemovesItsEntry(w, ev, i);
    } else {
      var t, t' := w.m.table, Next(w, ev).m.table;
      assert SameRange(t'[if |t'| == |t| then i else i + 1], t[i]);
    }
  }

  lemma DeallocRemovesItsEntry(w: World, ev: Event, i: nat)
    requires Consistent(w) && ev.EndDealloc? && Enabled(w, ev) && i < |w.m.table|
    ensures !Maps(Next(w, ev).m.table, w.m.table[i]) <==> Users(w.regions, w.m.table[i]) == {ev.id}
  {
    var t := w.m.table;
    var k := EntryOf(t, w.regions, ev.id);
    assert ev.id in Users(w.regions, t[k]);
    assert ev.id in Users(w.regions, t[i]) <==> i == k;
    if t[k].rc > 1 {
      assert SameRange(Next(w, ev).m.table[i], t[i]);
    } else {
      VanishTracks(t, w.regions, ev.id, k);
      ErasedIsGone(t, k, i);
    }
  }

  /** Once every region has ended the table is empty and no device block is left. */
  lemma QuiescentTableIsEmpty(evs: seq<Event>)
    requires Schedule(Start, evs) && After(Start, evs).regions == map[]
    ensures After(Start, evs).m == Mapping([], map[])
  {
    var w := After(Start, evs);
    AfterIsConsistent(Start, evs);
    assert w.m.table != [] ==> Users(w.regions, w.m.table[0]) == {};
    forall b
      ensures b !in w.m.blocks
    {
      assert b in w.m.blocks ==> HasImage(w.m.table, b);
    }
  }

  lemma RunsOn(w: World, ev: Event, w': World, evs: seq<Event>)
    requires Enabled(w, ev) && Next(w, ev) == w' && Schedule(w', evs)
    ensures Schedule(w, [ev] + evs) && After(w, [ev] + evs) == After(w', evs)
  {
    hide Enabled, Next;
    assert ([ev] + evs)[1..] == evs;
  }

  /** A world whose table has one entry, for the range [100, 108). */
  function OneEntry(rc: int, regions: map<nat, Region>): World {
    World(Mapping([Entry(100, 100, 108, 1000, rc)], map[1000 := 8]), regions)
  }

  lemma SharedBegins(r1: Region, r2: Region)
    requires r1 == Region(100, 8, Open) && r2 == Region(104, 4, Open)
    ensures var b1, b2 := BeginRegion(1, 100, 100, 8, false, 1000), BeginRegion(2, 104, 100, 4, false, 0);
      && Enabled(Start, b1) && Next(Start, b1) == OneEntry(1, map[1 := r1])
      && Enabled(OneEntry(1, map[1 := r1]), b2)
      && Next(OneEntry(1, map[1 := r1]), b2) == OneEntry(2, map[1 := r1, 2 := r2])
  {
    assert FirstHit([], 100, 8) == 0;
    assert FirstHit(OneEntry(1, map[1 := r1]).m.table, 104, 4) == 0;
  }

  lemma SharedLookups(r1: Region, r2: Region)
    requires r1 == Region(100, 8, Open) && r2 == Region(104, 4, Open)
    ensures var both := OneEntry(2, map[1 := r1, 2 := r2]);
      && Enabled(both, EndLookup(1)) && Next(both, EndLookup(1)) == OneEntry(1, map[2 := r2])
    ensures var last := OneEntry(1, map[2 := r2]);
      && Enabled(last, EndLookup(2)) && Next(last, EndLookup(2)) == OneEntry(1, map[2 := r2.(phase := Closing)])
  {
    assert FirstHit(OneEntry(2, map[]).m.table, 100, 8) == 0;
  }

  lemma SharedDealloc(r2: Region)
    requires r2 == Region(104, 4, Closing)
    ensures var w := OneEntry(1, map[2 := r2]);
      Enabled(w, EndDealloc(2)) && Next(w, EndDealloc(2)) == Start
  {
    assert FirstHit(OneEntry(1, map[2 := r2]).m.table, 104, 4) == 0;
  }

  /**
   * Such schedules exist: two threads share an entry, the first end gives up a reference, the
   * second is told IsLast and frees the block.
   */
  lemma TwoThreadsShareAnEntry()
    ensures var evs := [BeginRegion(1, 100, 100, 8, false, 1000), BeginRegion(2, 104, 100, 4, false, 0),
                        EndLookup(1), EndLookup(2), EndDealloc(2)];
      Schedule(Start, evs) && After(Start, evs) == Start
  {
    hide Enabled, Next, Schedule, After, OneEntry;
    var b1, b2, l1, l2, d2 := BeginRegion(1, 100, 100, 8, false, 1000), BeginRegion(2, 104, 100, 4, false, 0),
      EndLookup(1), EndLookup(2), EndDealloc(2);
    var r1, r2 := Region(100, 8, Open), Region(104, 4, Open);
    var w1, w2 := OneEntry(1, map[1 := r1]), OneEntry(2, map[1 := r1, 2 := r2]);
    var w3, w4 := OneEntry(1, map[2 := r2]), OneEntry(1, map[2 := r2.(phase := Closing)]);
    SharedBegins(r1, r2);
    SharedLookups(r1, r2);
    SharedDealloc(r2.(phase := Closing));
    NoEvents();
    RunsOn(w4, d2, Start, []);
    assert [d2] + [] == [d2];
    RunsOn(w3, l2, w4, [d2]);
    assert [l2] + [d2] == [l2, d2];
    RunsOn(w2, l1, w3, [l2, d2]);
    assert [l1] + [l2, d2] == [l1, l2, d2];
    RunsOn(w1, b2, w2, [l1, l2, d2]);
    assert [b2] + [l1, l2, d2] == [b2, l1, l2, d2];
    RunsOn(Start, b1, w1, [b2, l1, l2, d2]);
    assert [b1] + [b2, l1, l2, d2] == [b1, b2, l1, l2, d2];
  }

  lemma NoEvents()
    ensures Schedule(Start, []) && After(Start, []) == Start
  {
  }
}
