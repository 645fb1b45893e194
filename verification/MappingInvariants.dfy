/** What every operation of the mapping table keeps, and what holds in every reachable table. */
module MappingInvariants {
  import opened MappingTable

  /** One call into the table by any thread, under DataMapMtx. */
  datatype Op =
    | Begin(hp: int, base: int, size: nat, implicit: bool, update: bool, addr: int)
    | Lookup(hp: int, size: nat, update: bool)
    | Release(hp: int, size: nat, force: bool)
    | Attach(hp: int, size: nat, tgt: int)
    | Detach(hp: int)

  function Step(m: Mapping, op: Op): Mapping {
    match op
    case Begin(hp, base, size, implicit, update, addr) => GetOrAlloc(m, hp, base, size, implicit, update, addr).m
    case Lookup(hp, size, update) => GetTgtPtr(m, hp, size, update).m
    case Release(hp, size, force) => Dealloc(m, hp, size, force).m
    case Attach(hp, size, tgt) => Associate(m, hp, tgt, size).m
    case Detach(hp) => Disassociate(m, hp).m
  }

  predicate Allocates(m: Mapping, op: Op) {
    op.Begin? && op.size != 0 && FirstHit(m.table, op.hp, op.size) == |m.table|
  }

  predicate Erases(m: Mapping, op: Op) {
    && op.Release?
    && var k := FirstHit(m.table, op.hp, op.size);
       k < |m.table| && (op.force || m.table[k].rc <= 1)
  }

  /**
   * What the environment owes the table: the allocator returns unused device memory, an
   * associated range overlaps no other range on either side (associatePtr itself only
   * compares begin addresses), and associations are ended by disassociation while
   * allocations are not.
   */
  ghost predicate Admissible(m: Mapping, op: Op) {
    match op
    case Begin(_, _, size, _, _, addr) => Allocates(m, op) ==> FreeOnDevice(m, addr, size)
    case Lookup(_, _, _) => true
    case Release(hp, size, _) => Erases(m, op) ==> Owned(m, m.table[FirstHit(m.table, hp, size)])
    case Attach(hp, size, tgt) =>
      FirstAt(m.table, hp) == |m.table| ==>
        && size > 0 && FreeOnDevice(m, tgt, size)
        && forall i :: 0 <= i < |m.table| ==> Apart(hp, hp + size, m.table[i].begin, m.table[i].end)
    case Detach(hp) =>
      var k := FirstAt(m.table, hp);
      k < |m.table| && ConsideredInf(m.table[k].rc) ==> !Owned(m, m.table[k])
  }

  lemma NewEntryKeepsTable(t: seq<Entry>, e: Entry)
    requires ValidTable(t) && e.begin < e.end && e.rc >= 1
    requires forall i :: 0 <= i < |t| ==> Separate(e, t[i])
    ensures ValidTable([e] + t)
  {
  }

  lemma NewBlockKeepsMatch(m: Mapping, e: Entry)
    requires Inv(m) && e.begin < e.end && FreeOnDevice(m, e.tgt, Len(e))
    ensures e.tgt !in m.blocks
    ensures BlocksMatch(Mapping([e] + m.table, m.blocks[e.tgt := Len(e)]))
    ensures BlocksMatch(Mapping([e] + m.table, m.blocks))
  {
    var t := [e] + m.table;
    forall i | 0 <= i < |m.table|
      ensures m.table[i].tgt != e.tgt && t[i + 1] == m.table[i]
    {
      assert Apart(e.tgt, e.tgt + Len(e), m.table[i].tgt, m.table[i].tgt + Len(m.table[i]));
    }
    forall b | b in m.blocks
      ensures HasImage(t, b) && b != e.tgt
    {
      assert HasImage(m.table, b);
      var i :| 0 <= i < |m.table| && m.table[i].tgt == b;
      assert t[i + 1].tgt == b;
    }
    assert t[0].tgt == e.tgt;
    assert HasImage(t, e.tgt);
    forall i | 0 <= i < |t| && t[i].tgt in m.blocks
      ensures i > 0 && m.blocks[t[i].tgt] == Len(t[i])
    {
      assert Owned(m, m.table[i - 1]);
    }
  }

  lemma RecountKeepsInv(m: Mapping, k: nat, rc: int)
    requires Inv(m) && k < |m.table| && rc >= 1
    ensures Inv(m.(table := m.table[k := m.table[k].(rc := rc)]))
  {
    var t := m.table[k := m.table[k].(rc := rc)];
    forall b | b in m.blocks
      ensures HasImage(t, b)
    {
      assert HasImage(m.table, b);
      var i :| 0 <= i < |m.table| && m.table[i].tgt == b;
      assert t[i].tgt == b;
    }
    forall i, j | 0 <= i < j < |t|
      ensures Separate(t[i], t[j])
    {
      assert Separate(m.table[i], m.table[j]);
    }
    forall i | 0 <= i < |t| && t[i].tgt in m.blocks
      ensures m.blocks[t[i].tgt] == Len(t[i])
    {
      assert Owned(m, m.table[i]);
    }
  }

  lemma EraseKeepsTable(t: seq<Entry>, k: nat)
    requires ValidTable(t) && k < |t|
    ensures ValidTable(Erase(t, k))
    ensures forall e :: e in Erase(t, k) ==> e in t && e.tgt != t[k].tgt
  {
    forall i | 0 <= i < |t| && i != k
      ensures t[i].tgt != t[k].tgt
    {
      assert if i < k then Separate(t[i], t[k]) else Separate(t[k], t[i]);
    }
  }

  lemma EraseKeepsInv(m: Mapping, k: nat)
    requires Inv(m) && k < |m.table|
    ensures Inv(Mapping(Erase(m.table, k), m.blocks - {m.table[k].tgt}))
  {
    var t := Erase(m.table, k);
    EraseKeepsTable(m.table, k);
    forall b | b in m.blocks && b != m.table[k].tgt
      ensures HasImage(t, b)
    {
      assert HasImage(m.table, b);
      var i :| 0 <= i < |m.table| && m.table[i].tgt == b;
      assert t[if i < k then i else i - 1].tgt == b;
    }
    forall i | 0 <= i < |t| && t[i].tgt in m.blocks
      ensures t[i].tgt != m.table[k].tgt && m.blocks[t[i].tgt] == Len(t[i])
    {
      assert t[i] in t;
      assert Owned(m, m.table[if i < k then i else i + 1]);
    }
  }

  lemma NewEntryKeepsInv(m: Mapping, e: Entry)
    requires Inv(m) && e.begin < e.end && e.rc >= 1 && FreeOnDevice(m, e.tgt, Len(e))
    requires forall i :: 0 <= i < |m.table| ==> Apart(e.begin, e.end, m.table[i].begin, m.table[i].end)
    ensures e.tgt !in m.blocks
    ensures Inv(Mapping([e] + m.table, m.blocks[e.tgt := Len(e)]))
    ensures Inv(Mapping([e] + m.table, m.blocks))
  {
    forall i | 0 <= i < |m.table|
      ensures Separate(e, m.table[i])
    {
      assert Apart(e.tgt, e.tgt + Len(e), m.table[i].tgt, m.table[i].tgt + Len(m.table[i]));
    }
    NewEntryKeepsTable(m.table, e);
    NewBlockKeepsMatch(m, e);
  }

  lemma BeginKeepsInv(m: Mapping, op: Op)
    requires Inv(m) && op.Begin? && Admissible(m, op)
    ensures Inv(Step(m, op))
  {
    var k := FirstHit(m.table, op.hp, op.size);
    if k < |m.table| {
      RecountKeepsInv(m, k, m.table[k].rc + if op.update then 1 else 0);
    } else if op.size != 0 {
      forall i | 0 <= i < |m.table|
        ensures Apart(op.hp, op.hp + op.size, m.table[i].begin, m.table[i].end)
      {
        assert !Hit(m.table[i], op.hp, op.size);
      }
      NewEntryKeepsInv(m, Entry(op.base, op.hp, op.hp + op.size, op.addr, 1));
    }
  }

  lemma ReleaseKeepsInv(m: Mapping, op: Op)
    requires Inv(m) && op.Release? && Admissible(m, op)
    ensures Inv(Step(m, op))
  {
    var k := FirstHit(m.table, op.hp, op.size);
    if k < |m.table| {
      if Erases(m, op) {
        EraseKeepsInv(m, k);
      } else {
        RecountKeepsInv(m, k, m.table[k].rc - 1);
      }
    }
  }

  lemma AttachKeepsInv(m: Mapping, op: Op)
    requires Inv(m) && op.Attach? && Admissible(m, op)
    ensures Inv(Step(m, op))
  {
    if FirstAt(m.table, op.hp) == |m.table| {
      NewEntryKeepsInv(m, Entry(op.hp, op.hp, op.hp + op.size, op.tgt, INF_REF_CNT));
    }
  }

  /** Every operation keeps ranges disjoint, counts positive, and blocks owned by one entry each. */
  lemma StepKeepsInv(m: Mapping, op: Op)
    requires Inv(m) && Admissible(m, op)
    ensures Inv(Step(m, op))
  {
    match op
    case Begin(_, _, _, _, _, _) => BeginKeepsInv(m, op);
    case Lookup(hp, size, update) =>
      var k := FirstHit(m.table, hp, size);
      if k < |m.table| && m.table[k].rc > 1 {
        RecountKeepsInv(m, k, m.table[k].rc - 1);
      }
    case Release(_, _, _) => ReleaseKeepsInv(m, op);
    case Attach(_, _, _) => AttachKeepsInv(m, op);
    case Detach(hp) =>
      var k := FirstAt(m.table, hp);
      if k < |m.table| && ConsideredInf(m.table[k].rc) {
        EraseKeepsInv(m, k);
        assert m.blocks - {m.table[k].tgt} == m.blocks;
      }
  }

  // ------------------------------------------------------------------ runs

  function Run(m: Mapping, ops: seq<Op>): Mapping
    decreases |ops|
  {
    if ops == [] then m else Run(Step(m, ops[0]), ops[1..])
  }

  ghost predicate AdmissibleRun(m: Mapping, ops: seq<Op>)
    decreases |ops|
  {
    ops == [] || (Admissible(m, ops[0]) && AdmissibleRun(Step(m, ops[0]), ops[1..]))
  }

  lemma {:induction false} RunKeepsInv(m: Mapping, ops: seq<Op>)
    requires Inv(m) && AdmissibleRun(m, ops)
    ensures Inv(Run(m, ops))
    decreases |ops|
  {
    if ops != [] {
      StepKeepsInv(m, ops[0]);
      RunKeepsInv(Step(m, ops[0]), ops[1..]);
    }
  }

  /** Number of data_alloc calls during the run that returned address b. */
  function Allocations(m: Mapping, ops: seq<Op>, b: int): nat
    decreases |ops|
  {
    if ops == [] then 0 else
    (if Allocates(m, ops[0]) && ops[0].addr == b then 1 else 0) + Allocations(Step(m, ops[0]), ops[1..], b)
  }

  /** Number of data_delete calls during the run on address b. */
  function Deletions(m: Mapping, ops: seq<Op>, b: int): nat
    decreases |ops|
  {
    if ops == [] then 0 else
    (if Erases(m, ops[0]) && m.table[FirstHit(m.table, ops[0].hp, ops[0].size)].tgt == b then 1 else 0)
      + Deletions(Step(m, ops[0]), ops[1..], b)
  }

  /**
   * Conservation of device blocks: up to the block that is live now, every allocation at an
   * address has been matched by exactly one deletion, and never before it.
   */
  lemma {:induction false} BlocksAreFreedOnce(m: Mapping, ops: seq<Op>, b: int)
    requires Inv(m) && AdmissibleRun(m, ops)
    ensures (if b in m.blocks then 1 else 0) + Allocations(m, ops, b)
         == Deletions(m, ops, b) + (if b in Run(m, ops).blocks then 1 else 0)
    decreases |ops|
  {
    if ops != [] {
      var op := ops[0];
      StepKeepsInv(m, op);
      if Allocates(m, op) && op.addr == b {
        NewBlockKeepsMatch(m, Entry(op.base, op.hp, op.hp + op.size, op.addr, 1));
      }
      BlocksAreFreedOnce(Step(m, op), ops[1..], b);
    }
  }

  /** A table emptied again has given back every block it ever allocated. */
  lemma EmptyTableHoldsNoBlock(ops: seq<Op>, b: int)
    requires AdmissibleRun(Mapping([], map[]), ops)
    requires Run(Mapping([], map[]), ops).table == []
    ensures Allocations(Mapping([], map[]), ops, b) == Deletions(Mapping([], map[]), ops, b)
  {
    RunKeepsInv(Mapping([], map[]), ops);
    BlocksAreFreedOnce(Mapping([], map[]), ops, b);
    var m := Run(Mapping([], map[]), ops);
    assert b in m.blocks ==> HasImage(m.table, b);
  }

  // ---------------------------------------------------------------- lookup

  /** In a valid table a contained range is found in the one entry that contains it. */
  lemma ContainedIsFound(t: seq<Entry>, hp: int, size: nat, i: nat)
    requires ValidTable(t) && i < |t| && Contained(t[i], hp, size)
    ensures FirstHit(t, hp, size) == i
  {
    var k := FirstHit(t, hp, size);
    assert Hit(t[i], hp, size);
    assert k < i ==> Separate(t[k], t[i]);
  }

  /** Hence the order of the list does not matter to it. */
  lemma LookupIgnoresOrder(t: seq<Entry>, t': seq<Entry>, hp: int, size: nat, e: Entry)
    requires ValidTable(t) && ValidTable(t') && multiset(t) == multiset(t')
    requires e in t && Contained(e, hp, size)
    ensures FirstHit(t, hp, size) < |t| && t[FirstHit(t, hp, size)] == e
    ensures FirstHit(t', hp, size) < |t'| && t'[FirstHit(t', hp, size)] == e
  {
    assert e in multiset(t) && e in multiset(t');
    var i :| 0 <= i < |t| && t[i] == e;
    ContainedIsFound(t, hp, size, i);
    var j :| 0 <= j < |t'| && t'[j] == e;
    ContainedIsFound(t', hp, size, j);
  }

  /** Distinct mapped host bytes have distinct device images, at equal distances inside an entry. */
  lemma TranslationIsInjective(t: seq<Entry>, i: nat, j: nat, a: int, b: int)
    requires ValidTable(t) && i < |t| && j < |t|
    requires t[i].begin <= a < t[i].end && t[j].begin <= b < t[j].end
    ensures Translate(t[i], a) == Translate(t[j], b) <==> a == b
    ensures i == j ==> Translate(t[i], a) - Translate(t[j], b) == a - b
  {
    if i < j {
      assert Separate(t[i], t[j]);
    } else if j < i {
      assert Separate(t[j], t[i]);
    }
  }

  /**
   * Order does matter to a range that is only partly mapped: an implicit request over two
   * neighbouring entries takes a reference on whichever comes first in the list.
   */
  lemma PartialLookupDependsOnOrder()
    ensures exists t: seq<Entry>, t': seq<Entry> ::
      && ValidTable(t) && ValidTable(t') && multiset(t) == multiset(t')
      && FirstHit(t, 0, 3) < |t| && FirstHit(t', 0, 3) < |t'|
      && t[FirstHit(t, 0, 3)] != t'[FirstHit(t', 0, 3)]
  {
    var a, b := Entry(0, 0, 2, 100, 1), Entry(2, 2, 4, 200, 1);
    var t, t' := [a, b], [b, a];
    assert ValidTable(t) && ValidTable(t');
    assert multiset(t) == multiset{a, b} == multiset(t');
    assert FirstHit(t, 0, 3) == 0 && FirstHit(t', 0, 3) == 0;
  }

  /** The lookup stops at the same entry in both lists, or at none in both. */
  predicate SameHit(t: seq<Entry>, t': seq<Entry>, hp: int, size: nat) {
    var k, k' := FirstHit(t, hp, size), FirstHit(t', hp, size);
    (k < |t| <==> k' < |t'|) && (k < |t| && k' < |t'| ==> t[k] == t'[k'])
  }

  ghost predicate OrderIrrelevant(t: seq<Entry>, hp: int, size: nat) {
    forall t': seq<Entry> {:trigger SameHit(t, t', hp, size)} :: multiset(t') == multiset(t) ==> SameHit(t, t', hp, size)
  }

  ghost predicate TouchesAtMostOne(t: seq<Entry>, hp: int, size: nat) {
    forall i, j :: 0 <= i < |t| && 0 <= j < |t| && Hit(t[i], hp, size) && Hit(t[j], hp, size) ==> i == j
  }

  lemma OneHitIsFound(t: seq<Entry>, t': seq<Entry>, hp: int, size: nat)
    requires TouchesAtMostOne(t, hp, size) && multiset(t) == multiset(t')
    ensures SameHit(t, t', hp, size)
  {
    var k, k' := FirstHit(t, hp, size), FirstHit(t', hp, size);
    if k < |t| {
      assert t[k] in multiset(t');
      var j :| 0 <= j < |t'| && t'[j] == t[k];
    }
    if k' < |t'| {
      assert t'[k'] in multiset(t);
      var i :| 0 <= i < |t| && t[i] == t'[k'];
    }
  }

  /** The list with its entry j moved to the front. */
  function ToFront(t: seq<Entry>, j: nat): seq<Entry>
    requires j < |t|
  {
    [t[j]] + t[..j] + t[j + 1..]
  }

  lemma MovedHitIsFound(t: seq<Entry>, hp: int, size: nat, j: nat)
    requires j < |t| && Hit(t[j], hp, size)
    ensures multiset(ToFront(t, j)) == multiset(t)
    ensures FirstHit(ToFront(t, j), hp, size) == 0
  {
    assert t == t[..j] + [t[j]] + t[j + 1..];
  }

  /** The order of the list is irrelevant to a range exactly when it touches at most one entry. */
  lemma OrderIrrelevantIff(t: seq<Entry>, hp: int, size: nat)
    requires ValidTable(t)
    ensures OrderIrrelevant(t, hp, size) <==> TouchesAtMostOne(t, hp, size)
  {
    if TouchesAtMostOne(t, hp, size) {
      forall t': seq<Entry> | multiset(t') == multiset(t)
        ensures SameHit(t, t', hp, size)
      {
        OneHitIsFound(t, t', hp, size);
      }
    } else {
      var i, j :| 0 <= i < j < |t| && Hit(t[i], hp, size) && Hit(t[j], hp, size);
      MovedHitIsFound(t, hp, size, i);
      MovedHitIsFound(t, hp, size, j);
      assert Separate(t[i], t[j]);
      assert !(SameHit(t, ToFront(t, i), hp, size) && SameHit(t, ToFront(t, j), hp, size));
    }
  }

  // ---------------------------------------------------------- associations

  /** An association is ended by disassociation, which leaves the table as it was before. */
  lemma AssociationRoundTrip(m: Mapping, hp: int, tgt: int, size: nat)
    requires forall i :: 0 <= i < |m.table| ==> m.table[i].begin != hp
    ensures var a := Associate(m, hp, tgt, size);
      a.ok && Disassociate(a.m, hp) == Released(m, true)
  {
    var t := [Entry(hp, hp, hp + size, tgt, INF_REF_CNT)] + m.table;
    assert FirstAt(m.table, hp) == |m.table|;
    assert FirstAt(t, hp) == 0 && Erase(t, 0) == m.table;
  }

  /** A second association at the address succeeds exactly if it is the same, and changes nothing. */
  lemma AssociationAgain(m: Mapping, hp: int, tgt: int, size: nat, tgt': int, size': nat)
    requires forall i :: 0 <= i < |m.table| ==> m.table[i].begin != hp
    ensures var a := Associate(m, hp, tgt, size);
      Associate(a.m, hp, tgt', size') == Released(a.m, tgt' == tgt && size' == size)
  {
    assert FirstAt(m.table, hp) == |m.table|;
    assert FirstAt(Associate(m, hp, tgt, size).m.table, hp) == 0;
  }

  /** The table of an association whose count is rc by now. */
  function Associated(m: Mapping, hp: int, tgt: int, size: nat, rc: int): Mapping {
    m.(table := [Entry(hp, hp, hp + size, tgt, rc)] + m.table)
  }

  /** Ranges inside an association are on the memory given, and no region's end takes one for the last. */
  lemma AssociationTranslates(m: Mapping, hp: int, tgt: int, size: nat, rc: int, b: int, n: nat, update: bool)
    requires hp <= b < hp + size && b + n <= hp + size && rc >= 2
    ensures var l := GetTgtPtr(Associated(m, hp, tgt, size, rc), b, n, update);
      l.tp == tgt + (b - hp) && !l.isLast
  {
    var t := Associated(m, hp, tgt, size, rc).table;
    assert Hit(t[0], b, n) && FirstHit(t, b, n) == 0;
  }

  /** It starts with a count from which 2^61 regions more may end than begin until it could not be ended. */
  lemma AssociationLasts(m: Mapping, hp: int, tgt: int, size: nat, rc: int)
    requires forall i :: 0 <= i < |m.table| ==> m.table[i].begin != hp
    ensures Associate(m, hp, tgt, size).m == Associated(m, hp, tgt, size, 0x3fff_ffff_ffff_ffff)
    ensures Disassociate(Associated(m, hp, tgt, size, rc), hp) ==
      if rc >= 0x2000_0000_0000_0000 then Released(m, true) else Released(Associated(m, hp, tgt, size, rc), false)
  {
    var t := Associated(m, hp, tgt, size, rc).table;
    assert FirstAt(m.table, hp) == |m.table|;
    assert FirstAt(t, hp) == 0 && Erase(t, 0) == m.table;
  }

  /** An entry that a region has allocated is not disassociated. */
  lemma AllocationIsNoAssociation(m: Mapping, hp: int, base: int, size: nat, implicit: bool, addr: int)
    requires size > 0 && FirstHit(m.table, hp, size) == |m.table|
    ensures var o := GetOrAlloc(m, hp, base, size, implicit, true, addr);
      Disassociate(o.m, hp) == Released(o.m, false)
  {
    assert FirstAt(GetOrAlloc(m, hp, base, size, implicit, true, addr).m.table, hp) == 0;
  }
}
