/** The translation tables of registered libraries and the cache of host addresses in front of them. */
module TableMap {
  import opened CStrings

  /** A translation table: where the host entries begin, its identity, the entries' addresses. */
  datatype Table = Table(begin: int, id: nat, addrs: seq<int>)

  /** A cached answer: the table's identity and the index of the entry in it. */
  datatype Ref = Ref(id: nat, index: nat)

  /** The tables in the order of their keys, the cache, and the identity for the next table. */
  datatype State = State(tables: seq<Table>, cache: map<int, Ref>, nextId: nat)

  const EMPTY := State([], map[], 0)

  // --------------------------------------------------------------- lookups

  function IndexOf(addrs: seq<int>, h: int): (i: nat)
    ensures i <= |addrs|
    ensures i < |addrs| ==> addrs[i] == h
    ensures forall k :: 0 <= k < i ==> addrs[k] != h
  {
    if |addrs| == 0 || addrs[0] == h then 0 else 1 + IndexOf(addrs[1..], h)
  }

  /** The linear search over all tables. */
  function Search(tables: seq<Table>, h: int): Option<Ref> {
    if |tables| == 0 then None else
      var i := IndexOf(tables[0].addrs, h);
      if i < |tables[0].addrs| then Some(Ref(tables[0].id, i)) else Search(tables[1..], h)
  }

  /** The lookup of a launch: the cache first, then the search, whose answer is cached. */
  function Lookup(s: State, h: int): (State, Option<Ref>) {
    if h in s.cache then (s, Some(s.cache[h])) else
      match Search(s.tables, h)
      case None => (s, None)
      case Some(r) => (s.(cache := s.cache[h := r]), Some(r))
  }

  // ----------------------------------------------------- registration

  predicate Registered(tables: seq<Table>, begin: int) {
    exists i :: 0 <= i < |tables| && tables[i].begin == begin
  }

  function AddTable(tables: seq<Table>, t: Table): seq<Table> {
    if |tables| == 0 || t.begin < tables[0].begin then [t] + tables
    else [tables[0]] + AddTable(tables[1..], t)
  }

  function DropTable(tables: seq<Table>, begin: int): seq<Table> {
    if |tables| == 0 then [] else
      (if tables[0].begin == begin then [] else [tables[0]]) + DropTable(tables[1..], begin)
  }

  datatype Op =
    | Register(begin: int, addrs: seq<int>)
    | Launch(h: int)
    | Unregister(begin: int, addrs: seq<int>)

  function Without(cache: map<int, Ref>, addrs: seq<int>): (r: map<int, Ref>)
    ensures forall h :: h in r <==> h in cache && h !in addrs
    ensures forall h :: h in r ==> r[h] == cache[h]
  {
    map h | h in cache && h !in addrs :: cache[h]
  }

  function Step(s: State, op: Op): State {
    match op
    case Register(begin, addrs) =>
      if Registered(s.tables, begin) then s
      else State(AddTable(s.tables, Table(begin, s.nextId, addrs)), s.cache, s.nextId + 1)
    case Launch(h) => Lookup(s, h).0
    case Unregister(begin, addrs) =>
      State(DropTable(s.tables, begin), Without(s.cache, addrs), s.nextId)
  }

  /** The entries of a registered library do not change until it is unregistered. */
  predicate Admissible(s: State, op: Op) {
    op.Unregister? ==>
      forall i :: 0 <= i < |s.tables| && s.tables[i].begin == op.begin ==> s.tables[i].addrs == op.addrs
  }

  function Run(s: State, ops: seq<Op>): State
    decreases |ops|
  {
    if |ops| == 0 then s else Run(Step(s, ops[0]), ops[1..])
  }

  predicate AdmissibleRun(s: State, ops: seq<Op>)
    decreases |ops|
  {
    |ops| > 0 ==> Admissible(s, ops[0]) && AdmissibleRun(Step(s, ops[0]), ops[1..])
  }

  // ------------------------------------------------------------ invariants

  /** A cached answer names a live table whose entry at that index has that address. */
  ghost predicate Live(tables: seq<Table>, h: int, r: Ref) {
    exists t :: t in tables && t.id == r.id && r.index < |t.addrs| && t.addrs[r.index] == h
  }

  ghost predicate Distinct(tables: seq<Table>) {
    forall t, t' :: t in tables && t' in tables && (t.id == t'.id || t.begin == t'.begin) ==> t == t'
  }

  ghost predicate Valid(s: State) {
    && Distinct(s.tables)
    && (forall t :: t in s.tables ==> t.id < s.nextId)
    && (forall h :: h in s.cache ==> Live(s.tables, h, s.cache[h]))
  }

  lemma {:induction false} AddTableAdds(tables: seq<Table>, t: Table)
    ensures forall u :: u in AddTable(tables, t) <==> u in tables || u == t
    decreases |tables|
  {
    if |tables| > 0 && t.begin >= tables[0].begin {
      AddTableAdds(tables[1..], t);
      assert tables == [tables[0]] + tables[1..];
    }
  }

  lemma {:induction false} DropTableDrops(tables: seq<Table>, begin: int)
    ensures forall u :: u in DropTable(tables, begin) <==> u in tables && u.begin != begin
    decreases |tables|
  {
    if |tables| > 0 {
      DropTableDrops(tables[1..], begin);
      assert tables == [tables[0]] + tables[1..];
    }
  }

  lemma {:induction false} SearchFindsLive(tables: seq<Table>, h: int)
    ensures match Search(tables, h)
      case None => forall t :: t in tables ==> h !in t.addrs
      case Some(r) => Live(tables, h, r)
    decreases |tables|
  {
    if |tables| > 0 {
      SearchFindsLive(tables[1..], h);
      var i := IndexOf(tables[0].addrs, h);
      assert tables == [tables[0]] + tables[1..];
      if i < |tables[0].addrs| {
        assert tables[0] in tables;
      }
    }
  }

  lemma StepKeepsValid(s: State, op: Op)
    requires Valid(s) && Admissible(s, op)
    ensures Valid(Step(s, op))
  {
    match op
    case Register(begin, addrs) =>
      if !Registered(s.tables, begin) {
        RegisterKeepsValid(s, begin, addrs);
      }
    case Launch(h) =>
      SearchFindsLive(s.tables, h);
    case Unregister(begin, addrs) =>
      UnregisterKeepsValid(s, begin, addrs);
  }

  lemma RegisterKeepsValid(s: State, begin: int, addrs: seq<int>)
    requires Valid(s) && !Registered(s.tables, begin)
    ensures Valid(Step(s, Register(begin, addrs)))
  {
    var t := Table(begin, s.nextId, addrs);
    var s' := Step(s, Register(begin, addrs));
    AddTableAdds(s.tables, t);
    forall h | h in s.cache
      ensures Live(s'.tables, h, s.cache[h])
    {
      assert Live(s.tables, h, s.cache[h]);
    }
  }

  lemma UnregisterKeepsValid(s: State, begin: int, addrs: seq<int>)
    requires Valid(s) && Admissible(s, Unregister(begin, addrs))
    ensures Valid(Step(s, Unregister(begin, addrs)))
  {
    var s' := Step(s, Unregister(begin, addrs));
    DropTableDrops(s.tables, begin);
    forall h | h in s'.cache
      ensures Live(s'.tables, h, s'.cache[h])
    {
      assert Live(s.tables, h, s.cache[h]);
    }
  }

  /** Over every run of registrations, launches and unregistrations the cache stays valid. */
  lemma {:induction false} RunKeepsValid(s: State, ops: seq<Op>)
    requires Valid(s) && AdmissibleRun(s, ops)
    ensures Valid(Run(s, ops))
    decreases |ops|
  {
    if |ops| > 0 {
      StepKeepsValid(s, ops[0]);
      RunKeepsValid(Step(s, ops[0]), ops[1..]);
    }
  }

  /** No address occurs twice in the registered tables. */
  ghost predicate Unique(tables: seq<Table>) {
    forall t, t', i, i' {:trigger t.addrs[i], t'.addrs[i']} ::
      t in tables && t' in tables && 0 <= i < |t.addrs| && 0 <= i' < |t'.addrs| && t.addrs[i] == t'.addrs[i']
      ==> t == t' && i == i'
  }

  /**
   * After any run, when no address occurs twice in the tables registered by then, the answer of a
   * lookup is the answer of the linear search, whatever was cached before.
   */
  lemma CachedIsSearched(ops: seq<Op>, h: int)
    requires AdmissibleRun(EMPTY, ops) && Unique(Run(EMPTY, ops).tables)
    ensures var s := Run(EMPTY, ops);
      Lookup(s, h).1 == Search(s.tables, h)
  {
    RunKeepsValid(EMPTY, ops);
    var s := Run(EMPTY, ops);
    if h in s.cache {
      assert Live(s.tables, h, s.cache[h]);
      SearchFindsLive(s.tables, h);
    }
  }

  // ---------------------------------------------- when the cache is right

  /** Every lookup gives the answer of the linear search. */
  ghost predicate Agree(s: State) {
    forall h :: Lookup(s, h).1 == Search(s.tables, h)
  }

  ghost predicate Ordered(tables: seq<Table>) {
    forall i, j :: 0 <= i < j < |tables| ==> tables[i].begin < tables[j].begin
  }

  ghost predicate Sound(s: State) {
    Valid(s) && Ordered(s.tables) && Agree(s)
  }

  /** A table that holds h comes before begin. */
  ghost predicate HeldBefore(tables: seq<Table>, h: int, begin: int) {
    exists u :: u in tables && u.begin < begin && h in u.addrs
  }

  lemma OrderedTail(tables: seq<Table>)
    requires Ordered(tables) && |tables| > 0
    ensures Ordered(tables[1..])
    ensures forall u :: u in tables[1..] ==> tables[0].begin < u.begin
  {
  }

  lemma AddKeepsOrdered(tables: seq<Table>, t: Table)
    requires Ordered(tables) && !Registered(tables, t.begin)
    ensures Ordered(AddTable(tables, t))
    decreases |tables|
  {
    if |tables| > 0 && t.begin >= tables[0].begin {
      var rest := tables[1..];
      OrderedTail(tables);
      NotInTail(tables, t.begin);
      AddKeepsOrdered(rest, t);
      AddTableAdds(rest, t);
      var more := AddTable(rest, t);
      assert forall j :: 0 <= j < |more| ==> more[j] in more;
    }
  }

  lemma NotInTail(tables: seq<Table>, begin: int)
    requires |tables| > 0 && !Registered(tables, begin)
    ensures !Registered(tables[1..], begin) && tables[0].begin != begin
  {
    assert forall i :: 0 <= i < |tables[1..]| ==> tables[1..][i] == tables[i + 1];
  }

  lemma {:induction false} SearchAfterAdd(tables: seq<Table>, t: Table, h: int)
    requires Ordered(tables) && !Registered(tables, t.begin)
    ensures Search(AddTable(tables, t), h) ==
      if h !in t.addrs || HeldBefore(tables, h, t.begin) then Search(tables, h)
      else Some(Ref(t.id, IndexOf(t.addrs, h)))
    decreases |tables|
  {
    hide Registered;
    if |tables| > 0 {
      var first, rest := tables[0], tables[1..];
      OrderedTail(tables);
      NotInTail(tables, t.begin);
      assert tables == [first] + rest && first in tables;
      if t.begin < first.begin {
        assert !HeldBefore(tables, h, t.begin);
        assert AddTable(tables, t)[1..] == tables;
      } else {
        SearchAfterAdd(rest, t, h);
        assert AddTable(tables, t)[1..] == AddTable(rest, t);
        assert HeldBefore(tables, h, t.begin) <==> h in first.addrs || HeldBefore(rest, h, t.begin);
      }
    } else {
      assert AddTable(tables, t) == [t] && [t][1..] == [];
    }
  }

  /** The search answers with the table of the lowest begin that holds the address. */
  lemma {:induction false} SearchFindsLowest(tables: seq<Table>, h: int, u: Table)
    requires Ordered(tables) && u in tables && h in u.addrs
    ensures Search(tables, h).Some?
    ensures exists t :: t in tables && t.id == Search(tables, h).value.id && t.begin <= u.begin
    decreases |tables|
  {
    OrderedTail(tables);
    assert tables == [tables[0]] + tables[1..] && tables[0] in tables;
    if h !in tables[0].addrs {
      SearchFindsLowest(tables[1..], h, u);
    }
  }

  lemma {:induction false} SearchAfterDrop(tables: seq<Table>, begin: int, h: int)
    requires forall t :: t in tables && t.begin == begin ==> h !in t.addrs
    ensures Search(DropTable(tables, begin), h) == Search(tables, h)
    decreases |tables|
  {
    if |tables| > 0 {
      assert tables == [tables[0]] + tables[1..] && tables[0] in tables;
      SearchAfterDrop(tables[1..], begin, h);
      if tables[0].begin != begin {
        assert DropTable(tables, begin)[1..] == DropTable(tables[1..], begin);
      } else {
        assert DropTable(tables, begin) == DropTable(tables[1..], begin);
      }
    }
  }

  lemma {:induction false} DropKeepsOrdered(tables: seq<Table>, begin: int)
    requires Ordered(tables)
    ensures Ordered(DropTable(tables, begin))
    decreases |tables|
  {
    if |tables| > 0 {
      OrderedTail(tables);
      DropKeepsOrdered(tables[1..], begin);
      DropTableDrops(tables[1..], begin);
      var rest := DropTable(tables[1..], begin);
      assert forall j :: 0 <= j < |rest| ==> rest[j] in rest;
    }
  }

  /** The new library holds no cached address ahead of the table that the cache names for it. */
  ghost predicate Harmless(s: State, op: Op) {
    op.Register? && !Registered(s.tables, op.begin) ==>
      forall h, t :: h in s.cache && h in op.addrs && t in s.tables && t.id == s.cache[h].id ==> t.begin < op.begin
  }

  lemma CachedIsHeldBefore(s: State, h: int, begin: int)
    requires Sound(s) && h in s.cache
    ensures Search(s.tables, h) == Some(s.cache[h])
    ensures HeldBefore(s.tables, h, begin) <==> exists t :: t in s.tables && t.id == s.cache[h].id && t.begin < begin
  {
    assert Lookup(s, h).1 == Search(s.tables, h);
    assert Live(s.tables, h, s.cache[h]);
    if HeldBefore(s.tables, h, begin) {
      var u :| u in s.tables && u.begin < begin && h in u.addrs;
      SearchFindsLowest(s.tables, h, u);
    }
  }

  lemma RegisterAgreesIff(s: State, begin: int, addrs: seq<int>)
    requires Sound(s) && !Registered(s.tables, begin)
    ensures Agree(Step(s, Register(begin, addrs))) <==> Harmless(s, Register(begin, addrs))
  {
    var t, s' := Table(begin, s.nextId, addrs), Step(s, Register(begin, addrs));
    forall h
      ensures Lookup(s', h).1 == Search(s'.tables, h)
        <==> !(h in s.cache && h in addrs) || HeldBefore(s.tables, h, begin)
    {
      SearchAfterAdd(s.tables, t, h);
      if h in s.cache {
        CachedIsHeldBefore(s, h, begin);
        assert Live(s.tables, h, s.cache[h]);
      }
    }
    forall h | h in s.cache
      ensures HeldBefore(s.tables, h, begin)
        <==> forall t :: t in s.tables && t.id == s.cache[h].id ==> t.begin < begin
    {
      CachedIsHeldBefore(s, h, begin);
      assert Live(s.tables, h, s.cache[h]);
    }
  }

  lemma LaunchAgrees(s: State, h: int)
    requires Agree(s)
    ensures Agree(Step(s, Launch(h)))
  {
    var s' := Step(s, Launch(h));
    forall g
      ensures Lookup(s', g).1 == Search(s'.tables, g)
    {
      assert Lookup(s, g).1 == Search(s.tables, g);
    }
  }

  lemma UnregisterAgrees(s: State, begin: int, addrs: seq<int>)
    requires Agree(s) && Admissible(s, Unregister(begin, addrs))
    ensures Agree(Step(s, Unregister(begin, addrs)))
  {
    var s' := Step(s, Unregister(begin, addrs));
    forall h
      ensures Lookup(s', h).1 == Search(s'.tables, h)
    {
      if h in s'.cache {
        assert Lookup(s, h).1 == Search(s.tables, h);
        SearchAfterDrop(s.tables, begin, h);
      }
    }
  }

  /** Only a registration can make the cache disagree with the search, and exactly when it is not harmless. */
  lemma StepAgreesIff(s: State, op: Op)
    requires Sound(s) && Admissible(s, op)
    ensures Valid(Step(s, op)) && Ordered(Step(s, op).tables)
    ensures Agree(Step(s, op)) <==> Harmless(s, op)
  {
    StepKeepsValid(s, op);
    match op
    case Register(begin, addrs) =>
      if !Registered(s.tables, begin) {
        AddKeepsOrdered(s.tables, Table(begin, s.nextId, addrs));
        RegisterAgreesIff(s, begin, addrs);
      }
    case Launch(h) => LaunchAgrees(s, h);
    case Unregister(begin, addrs) =>
      DropKeepsOrdered(s.tables, begin);
      UnregisterAgrees(s, begin, addrs);
  }

  /** The state after every operation of the run agrees. */
  ghost predicate AgreeThroughout(s: State, ops: seq<Op>)
    decreases |ops|
  {
    Agree(s) && (|ops| > 0 ==> AgreeThroughout(Step(s, ops[0]), ops[1..]))
  }

  ghost predicate HarmlessRun(s: State, ops: seq<Op>)
    decreases |ops|
  {
    |ops| > 0 ==> Harmless(s, ops[0]) && HarmlessRun(Step(s, ops[0]), ops[1..])
  }

  lemma {:induction false} RunAgreesIff(s: State, ops: seq<Op>)
    requires Sound(s) && AdmissibleRun(s, ops)
    ensures AgreeThroughout(s, ops) <==> HarmlessRun(s, ops)
    decreases |ops|
  {
    if |ops| > 0 {
      StepAgreesIff(s, ops[0]);
      if Harmless(s, ops[0]) {
        RunAgreesIff(Step(s, ops[0]), ops[1..]);
      }
    }
  }

  /** From the start: cached answers are the search's all along iff every registration is harmless. */
  lemma CacheAgreesIff(ops: seq<Op>)
    requires AdmissibleRun(EMPTY, ops)
    ensures AgreeThroughout(EMPTY, ops) <==> HarmlessRun(EMPTY, ops)
  {
    RunAgreesIff(EMPTY, ops);
  }

  /** An address in two libraries: the cache keeps the answer that the search gave before the second. */
  lemma SharedAddressIsStale()
    ensures var ops := [Register(20, [7]), Launch(7), Register(10, [7])];
      var s := Run(EMPTY, ops);
      AdmissibleRun(EMPTY, ops) && Lookup(s, 7).1 == Some(Ref(0, 0)) && Search(s.tables, 7) == Some(Ref(1, 0))
  {
    var ops := [Register(20, [7]), Launch(7), Register(10, [7])];
    var a, b := Table(20, 0, [7]), Table(10, 1, [7]);
    var s1 := State([a], map[], 1);
    assert Step(EMPTY, ops[0]) == s1;
    assert IndexOf([7], 7) == 0;
    assert Search([a], 7) == Some(Ref(0, 0));
    var s2 := State([a], map[7 := Ref(0, 0)], 1);
    assert Step(s1, ops[1]) == s2;
    var s3 := State([b, a], map[7 := Ref(0, 0)], 2);
    assert !Registered([a], 10);
    assert Step(s2, ops[2]) == s3;
    assert ops[1..] == [ops[1], ops[2]] && ops[1..][1..] == [ops[2]] && ops[1..][1..][1..] == [];
    assert Run(s2, [ops[2]]) == Run(s3, []) == s3;
    assert Run(s1, ops[1..]) == s3;
    assert Search([b, a], 7) == Some(Ref(1, 0));
  }

  // ------------------------------------------------------------- the class

  class Registry {
    var tables: seq<Table>
    var cache: map<int, Ref>
    var nextId: nat

    constructor ()
      ensures Contents() == EMPTY
    {
      tables, cache, nextId := [], map[], 0;
    }

    function Contents(): State
      reads this
    {
      State(tables, cache, nextId)
    }

    /** A library with an image that some plugin supports. */
    method RegisterLib(begin: int, addrs: seq<int>)
      modifies this
      ensures Contents() == Step(old(Contents()), Register(begin, addrs))
    {
      var i := 0;
      while i < |tables| && tables[i].begin != begin
        invariant 0 <= i <= |tables| && forall k :: 0 <= k < i ==> tables[k].begin != begin
      {
        i := i + 1;
      }
      if i == |tables| {
        tables := AddTable(tables, Table(begin, nextId, addrs));
        nextId := nextId + 1;
      }
    }

    /** The first part of target: finds the table of a host address. */
    method FindTable(h: int) returns (r: Option<Ref>)
      modifies this
      ensures (Contents(), r) == Lookup(old(Contents()), h)
    {
      if h in cache {
        return Some(cache[h]);
      }
      r := None;
      var i := 0;
      while r.None? && i < |tables|
        invariant 0 <= i <= |tables| && Contents() == old(Contents())
        invariant if r.Some? then Search(tables, h) == r else Search(tables, h) == Search(tables[i..], h)
        decreases |tables| - i, r.None?
      {
        var addrs := tables[i].addrs;
        var k := 0;
        while k < |addrs| && addrs[k] != h
          invariant 0 <= k <= |addrs| && IndexOf(addrs, h) == k + IndexOf(addrs[k..], h)
        {
          k := k + 1;
        }
        if k < |addrs| {
          r := Some(Ref(tables[i].id, k));
        }
        i := i + 1;
      }
      if r.Some? {
        cache := cache[h := r.value];
      }
    }

    method UnregisterLib(begin: int, addrs: seq<int>)
      modifies this
      ensures Contents() == Step(old(Contents()), Unregister(begin, addrs))
    {
      for k := 0 to |addrs|
        invariant tables == old(tables) && nextId == old(nextId)
        invariant cache == Without(old(cache), addrs[..k])
      {
        cache := cache - {addrs[k]};
      }
      assert addrs[..|addrs|] == addrs;
      tables := DropTable(tables, begin);
    }
  }
}
