/** The table of static variables: listed on the target, sent as bytes, merged with the host's. */
module VarTable {
  import opened Memory
  import opened CStrings
  import opened Marshal

  /** A slot of a table; unused slots have no name. */
  datatype Slot = Slot(name: Option<Name>, addr: nat)

  datatype Var = Var(name: Name, addr: nat)

  /** The used slots of a table from slot j on. */
  function Used(table: seq<Slot>, j: nat): seq<Var>
    requires j <= |table|
    decreases |table| - j
  {
    if j == |table| then []
    else (if table[j].name.Some? then [Var(table[j].name.value, table[j].addr)] else []) + Used(table, j + 1)
  }

  /** The variables of the tables from table i on, in list order. */
  function Vars(tables: seq<seq<Slot>>, i: nat): seq<Var>
    requires i <= |tables|
    decreases |tables| - i
  {
    if i == |tables| then [] else Used(tables[i], 0) + Vars(tables, i + 1)
  }

  /** How many of the first j slots have a name. */
  function Named(table: seq<Slot>, j: nat): nat
    requires j <= |table|
  {
    if j == 0 then 0 else Named(table, j - 1) + if table[j - 1].name != None then 1 else 0
  }

  function NamedIn(tables: seq<seq<Slot>>, i: nat): nat
    requires i <= |tables|
  {
    if i == 0 then 0 else NamedIn(tables, i - 1) + Named(tables[i - 1], |tables[i - 1]|)
  }

  lemma {:induction false} UsedFromSlot(table: seq<Slot>, k: nat, j: nat)
    requires k <= j <= |table|
    ensures Named(table, k) <= Named(table, j)
    ensures |Used(table, k)| == Named(table, |table|) - Named(table, k)
    ensures j < |table| && table[j].name != None ==>
      && Named(table, j) - Named(table, k) < |Used(table, k)|
      && Used(table, k)[Named(table, j) - Named(table, k)] == Var(table[j].name.value, table[j].addr)
    decreases |table| - k
  {
    if k < |table| {
      UsedFromSlot(table, k + 1, if k < j then j else k + 1);
    }
  }

  lemma {:induction false} VarsFromTable(tables: seq<seq<Slot>>, l: nat, i: nat, j: nat)
    requires l <= i < |tables| && j < |tables[i]| && tables[i][j].name != None
    ensures NamedIn(tables, l) <= NamedIn(tables, i)
    ensures var k := NamedIn(tables, i) - NamedIn(tables, l) + Named(tables[i], j);
      k < |Vars(tables, l)| && Vars(tables, l)[k] == Var(tables[i][j].name.value, tables[i][j].addr)
    decreases i - l
  {
    UsedFromSlot(tables[l], 0, 0);
    if l < i {
      VarsFromTable(tables, l + 1, i, j);
    } else {
      UsedFromSlot(tables[i], 0, j);
    }
  }

  lemma {:induction false} VarsCount(tables: seq<seq<Slot>>, l: nat)
    requires l <= |tables|
    ensures |Vars(tables, l)| == NamedIn(tables, |tables|) - NamedIn(tables, l)
    decreases |tables| - l
  {
    if l < |tables| {
      UsedFromSlot(tables[l], 0, 0);
      VarsCount(tables, l + 1);
    }
  }

  /**
   * The variables are the named slots and no others: each is listed behind those of the tables
   * before its own and of the slots before it.
   */
  lemma EverySlotIsListed(tables: seq<seq<Slot>>, i: nat, j: nat)
    requires i < |tables| && j < |tables[i]| && tables[i][j].name != None
    ensures |Vars(tables, 0)| == NamedIn(tables, |tables|)
    ensures var k := NamedIn(tables, i) + Named(tables[i], j);
      k < |Vars(tables, 0)| && Vars(tables, 0)[k] == Var(tables[i][j].name.value, tables[i][j].addr)
  {
    hide Vars, Named;
    VarsCount(tables, 0);
    VarsFromTable(tables, 0, i, j);
  }

  // ------------------------------------------------------------ iterator

  class VarIterator {
    const tables: seq<seq<Slot>>
    var node: nat
    var entry: nat

    /** At the end, or at a used slot. */
    ghost predicate Valid()
      reads this
    {
      node <= |tables| && (node < |tables| ==> entry < |tables[node]| && tables[node][entry].name.Some?)
    }

    /** The variables still to come. */
    ghost function Remaining(): seq<Var>
      reads this
      requires Valid()
    {
      if node == |tables| then [] else Used(tables[node], entry) + Vars(tables, node + 1)
    }

    /** Moves to the first used slot of the tables from table i on. */
    method NewNode(i: nat)
      requires i <= |tables|
      modifies this
      ensures Valid() && Remaining() == Vars(tables, i)
    {
      node, entry := i, 0;
      while node < |tables|
        invariant i <= node <= |tables| && Vars(tables, i) == Vars(tables, node)
        decreases |tables| - node
      {
        entry := SkipUnused(tables[node], 0);
        if entry < |tables[node]| {
          break;
        }
        NothingUsed(tables[node]);
        node, entry := node + 1, 0;
      }
    }

    constructor (tables: seq<seq<Slot>>)
      ensures this.tables == tables && Valid() && Remaining() == Vars(tables, 0)
    {
      this.tables := tables;
      new;
      NewNode(0);
    }

    method AtEnd() returns (end: bool)
      requires Valid()
      ensures end <==> Remaining() == []
    {
      end := node == |tables|;
    }

    method Current() returns (v: Var)
      requires Valid() && Remaining() != []
      ensures v == Remaining()[0]
    {
      v := Var(tables[node][entry].name.value, tables[node][entry].addr);
    }

    /** operator++ */
    method Next()
      requires Valid() && Remaining() != []
      modifies this
      ensures Valid() && Remaining() == old(Remaining())[1..]
    {
      hide Used, Vars;
      UsedStep(tables[node], entry);
      ghost var more := Vars(tables, node + 1);
      assert Remaining()[1..] == Used(tables[node], entry + 1) + more;
      entry := SkipUnused(tables[node], entry + 1);
      if entry == |tables[node]| {
        NothingUsed(tables[node]);
        NewNode(node + 1);
        assert [] + more == more;
      }
    }
  }

  /** The first used slot from slot j on. */
  method SkipUnused(table: seq<Slot>, j: nat) returns (k: nat)
    requires j <= |table|
    ensures j <= k <= |table| && Used(table, k) == Used(table, j)
    ensures k < |table| ==> table[k].name.Some?
  {
    k := j;
    while k < |table| && table[k].name.None?
      invariant j <= k <= |table| && Used(table, k) == Used(table, j)
    {
      k := k + 1;
    }
  }

  lemma NothingUsed(table: seq<Slot>)
    ensures Used(table, |table|) == []
  {
  }

  /** Running the iterator to the end yields the variables in list order. */
  method Iterate(tables: seq<seq<Slot>>) returns (vs: seq<Var>)
    ensures vs == Vars(tables, 0)
  {
    hide Vars, VarIterator.Remaining;
    var it := new VarIterator(tables);
    vs := [];
    var end := it.AtEnd();
    while !end
      invariant it.Valid() && it.tables == tables && fresh(it)
      invariant vs + it.Remaining() == Vars(tables, 0) && (end <==> it.Remaining() == [])
      decreases |it.Remaining()|
    {
      var v := it.Current();
      ghost var rest := it.Remaining();
      it.Next();
      assert rest == [v] + it.Remaining();
      assert vs + ([v] + it.Remaining()) == (vs + [v]) + it.Remaining();
      vs := vs + [v];
      end := it.AtEnd();
    }
  }

  // ---------------------------------------------------------- the buffer

  const ENTRY_SIZE := 16

  function Pool(vs: seq<Var>): seq<Byte> {
    if |vs| == 0 then [] else Pool(vs[..|vs| - 1]) + (vs[|vs| - 1].name + [0])
  }

  /** The entry of variable k when the buffer is at base. */
  function Head(vs: seq<Var>, k: nat, base: int): (h: seq<Byte>)
    requires k < |vs|
    ensures |h| == ENTRY_SIZE
  {
    Int64(base + ENTRY_SIZE * |vs| + |Pool(vs[..k])|) + Int64(vs[k].addr)
  }

  function Heads(vs: seq<Var>, k: nat, base: int): (h: seq<Byte>)
    requires k <= |vs|
    ensures |h| == ENTRY_SIZE * k
  {
    if k == 0 then [] else Heads(vs, k - 1, base) + Head(vs, k - 1, base)
  }

  /** The whole buffer at base; base 0 before names are patched. */
  function Image(vs: seq<Var>, base: int): seq<Byte> {
    Heads(vs, |vs|, base) + Pool(vs)
  }

  lemma PoolOneMore(vs: seq<Var>, k: nat)
    requires k < |vs|
    ensures Pool(vs[..k + 1]) == Pool(vs[..k]) + (vs[k].name + [0])
  {
    assert vs[..k + 1][..k] == vs[..k];
  }

  lemma {:induction false} PoolHas(vs: seq<Var>, k: nat)
    requires k < |vs|
    ensures var p := |Pool(vs[..k])|;
      && p + |vs[k].name| < |Pool(vs)|
      && Pool(vs)[p..p + |vs[k].name|] == vs[k].name
      && Pool(vs)[p + |vs[k].name|] == 0
    decreases |vs|
  {
    hide Pool;
    var last := |vs| - 1;
    var rest := vs[..last];
    var p, name := |Pool(vs[..k])|, vs[k].name;
    PoolOneMore(vs, last);
    assert vs[..last + 1] == vs;
    if k < last {
      PoolHas(rest, k);
      assert rest[..k] == vs[..k];
      SliceOfFirst(Pool(rest), vs[last].name + [0], p, p + |name|);
    } else {
      SliceOfSecond(Pool(rest), name + [0], 0, |name|);
    }
  }

  lemma SliceOfFirst(a: seq<Byte>, b: seq<Byte>, lo: nat, hi: nat)
    requires lo <= hi <= |a|
    ensures (a + b)[lo..hi] == a[lo..hi]
  {
  }

  lemma SliceOfSecond(a: seq<Byte>, b: seq<Byte>, lo: nat, hi: nat)
    requires lo <= hi <= |b|
    ensures (a + b)[|a| + lo..|a| + hi] == b[lo..hi]
  {
  }

  lemma {:induction false} HeadsHas(vs: seq<Var>, n: nat, k: nat, base: int)
    requires k < n <= |vs|
    ensures Heads(vs, n, base)[ENTRY_SIZE * k..ENTRY_SIZE * k + ENTRY_SIZE] == Head(vs, k, base)
    decreases n
  {
    hide Head;
    var h, last := Heads(vs, n - 1, base), Head(vs, n - 1, base);
    if k < n - 1 {
      HeadsHas(vs, n - 1, k, base);
      SliceOfFirst(h, last, ENTRY_SIZE * k, ENTRY_SIZE * k + ENTRY_SIZE);
    } else {
      SliceOfSecond(h, last, 0, ENTRY_SIZE);
    }
  }

  /** Where the entry of variable k and its name are in the buffer. */
  lemma ImageHas(vs: seq<Var>, k: nat, base: int)
    requires k < |vs|
    ensures var bs, lo, at := Image(vs, base), ENTRY_SIZE * k, ENTRY_SIZE * |vs| + |Pool(vs[..k])|;
      && lo + ENTRY_SIZE <= |bs| && at + |vs[k].name| < |bs|
      && bs[lo..lo + ENTRY_SIZE] == Head(vs, k, base)
      && bs[at..at + |vs[k].name|] == vs[k].name
      && bs[at + |vs[k].name|] == 0
  {
    hide Heads, Pool, Head;
    var heads, pool, p := Heads(vs, |vs|, base), Pool(vs), |Pool(vs[..k])|;
    HeadsHas(vs, |vs|, k, base);
    SliceOfFirst(heads, pool, ENTRY_SIZE * k, ENTRY_SIZE * k + ENTRY_SIZE);
    PoolHas(vs, k);
    SliceOfSecond(heads, pool, p, p + |vs[k].name|);
  }

  lemma HeadHalves(vs: seq<Var>, k: nat, base: int)
    requires k < |vs|
    ensures Head(vs, k, base)[..8] == Int64(base + ENTRY_SIZE * |vs| + |Pool(vs[..k])|)
    ensures Head(vs, k, base)[8..] == Int64(vs[k].addr)
  {
    hide Int64, Pool;
  }

  /** Variable k as the host reads it from the buffer. */
  function ReadVar(bs: seq<Byte>, k: nat, base: nat): Option<Var>
    requires ENTRY_SIZE * k + ENTRY_SIZE <= |bs|
  {
    var name := Value(bs[ENTRY_SIZE * k..ENTRY_SIZE * k + 8]) - base;
    var addr := Value(bs[ENTRY_SIZE * k + 8..ENTRY_SIZE * k + ENTRY_SIZE]);
    if 0 <= name < |bs| then Some(Var(CString(bs, name), addr)) else None
  }

  lemma Halves(bs: seq<Byte>, lo: nat)
    requires lo + ENTRY_SIZE <= |bs|
    ensures bs[lo..lo + ENTRY_SIZE][..8] == bs[lo..lo + 8]
    ensures bs[lo..lo + ENTRY_SIZE][8..] == bs[lo + 8..lo + ENTRY_SIZE]
  {
  }

  /** Read at any base, the patched buffer gives the variables in list order. */
  lemma ReadBack(vs: seq<Var>, k: nat, base: nat)
    requires k < |vs| && base + |Image(vs, base)| <= WIDE
    requires vs[k].addr < WIDE && NulFree(vs[k].name)
    ensures ENTRY_SIZE * k + ENTRY_SIZE <= |Image(vs, base)|
    ensures ReadVar(Image(vs, base), k, base) == Some(vs[k])
  {
    hide Int64, Value, Image, Pool, Head, NulFree;
    var bs, lo, at := Image(vs, base), ENTRY_SIZE * k, ENTRY_SIZE * |vs| + |Pool(vs[..k])|;
    ImageHas(vs, k, base);
    HeadHalves(vs, k, base);
    Halves(bs, lo);
    Int64RoundTrip(base + at);
    Int64RoundTrip(vs[k].addr);
    CStringReads(bs, at, vs[k].name);
  }

  // ----------------------------------------------------------- the loops

  lemma UsedStep(table: seq<Slot>, j: nat)
    requires j < |table|
    ensures Used(table, j)
      == (if table[j].name.Some? then [Var(table[j].name.value, table[j].addr)] else []) + Used(table, j + 1)
  {
  }

  lemma {:induction false} PoolMonotone(vs: seq<Var>, k: nat)
    requires k <= |vs|
    ensures |Pool(vs[..k])| <= |Pool(vs)|
    decreases |vs| - k
  {
    if k < |vs| {
      PoolOneMore(vs, k);
      PoolMonotone(vs, k + 1);
    } else {
      assert vs[..k] == vs;
    }
  }

  /** Number of variables and size of the buffer. */
  method TableSize(tables: seq<seq<Slot>>) returns (nelems: nat, size: nat)
    ensures nelems == |Vars(tables, 0)|
    ensures size == |Image(Vars(tables, 0), 0)|
  {
    hide Int64, Image, Pool;
    var length := 0;
    nelems := 0;
    ghost var vs := Vars(tables, 0);
    assert length == |Pool(vs[..0])| by { NoPool(vs); }
    for i := 0 to |tables|
      invariant nelems <= |vs| && length == |Pool(vs[..nelems])| && vs[nelems..] == Vars(tables, i)
    {
      var table := tables[i];
      for j := 0 to |table|
        invariant nelems <= |vs| && length == |Pool(vs[..nelems])|
        invariant vs[nelems..] == Used(table, j) + Vars(tables, i + 1)
      {
        if table[j].name.Some? {
          FirstRemaining(vs, nelems, table, j, Vars(tables, i + 1));
          PoolOneMore(vs, nelems);
          length := length + |table[j].name.value| + 1;
          nelems := nelems + 1;
        }
      }
    }
    assert vs[..nelems] == vs;
    size := nelems * ENTRY_SIZE + length;
    assert size == |Image(vs, 0)| by { ImageSize(vs); }
  }

  lemma NoPool(vs: seq<Var>)
    ensures Pool(vs[..0]) == []
  {
  }

  lemma ImageSize(vs: seq<Var>)
    ensures |Image(vs, 0)| == ENTRY_SIZE * |vs| + |Pool(vs)|
  {
  }

  lemma FirstRemaining(vs: seq<Var>, k: nat, table: seq<Slot>, j: nat, more: seq<Var>)
    requires k <= |vs| && j < |table| && vs[k..] == Used(table, j) + more && table[j].name.Some?
    ensures k < |vs| && vs[k] == Var(table[j].name.value, table[j].addr)
    ensures vs[k + 1..] == Used(table, j + 1) + more
  {
    hide Used;
    var v, rest := Var(table[j].name.value, table[j].addr), Used(table, j + 1);
    UsedFrom(table, j);
    assert vs[k..] == [v] + (rest + more);
    assert vs[k] == vs[k..][0];
    assert vs[k + 1..] == vs[k..][1..];
  }

  lemma UsedFrom(table: seq<Slot>, j: nat)
    requires j < |table| && table[j].name.Some?
    ensures Used(table, j) == [Var(table[j].name.value, table[j].addr)] + Used(table, j + 1)
  {
  }

  /** s with bs written over it at p. */
  function Over(s: seq<Byte>, p: nat, bs: seq<Byte>): (r: seq<Byte>)
    requires p + |bs| <= |s|
    ensures |r| == |s|
  {
    s[..p] + bs + s[p + |bs|..]
  }

  lemma OverSlices(s: seq<Byte>, p: nat, bs: seq<Byte>, lo: nat, hi: nat)
    requires p + |bs| <= |s| && lo <= hi <= |s|
    ensures hi <= p || p + |bs| <= lo ==> Over(s, p, bs)[lo..hi] == s[lo..hi]
    ensures Over(s, p, bs)[p..p + |bs|] == bs
  {
  }

  method Put(buf: array<Byte>, p: nat, bs: seq<Byte>)
    requires p + |bs| <= buf.Length
    modifies buf
    ensures buf[..] == Over(old(buf[..]), p, bs)
  {
    for j := 0 to |bs|
      invariant buf[..p] == old(buf[..p]) && buf[p..p + j] == bs[..j]
      invariant buf[p + |bs|..] == old(buf[p + |bs|..])
    {
      buf[p + j] := bs[j];
      assert buf[p..p + j + 1] == buf[p..p + j] + [bs[j]];
      assert bs[..j + 1] == bs[..j] + [bs[j]];
    }
    assert bs[..|bs|] == bs;
    assert buf[..] == buf[..p] + buf[p..p + |bs|] + buf[p + |bs|..];
  }

  /** The part of the buffer that k variables fill. */
  ghost predicate Filled(bs: seq<Byte>, vs: seq<Var>, k: nat) {
    && k <= |vs| && |bs| == |Image(vs, 0)|
    && bs[..ENTRY_SIZE * k] == Heads(vs, k, 0)
    && ENTRY_SIZE * |vs| + |Pool(vs[..k])| <= |bs|
    && bs[ENTRY_SIZE * |vs|..ENTRY_SIZE * |vs| + |Pool(vs[..k])|] == Pool(vs[..k])
  }

  lemma SplitSlice(s: seq<Byte>, lo: nat, mid: nat, hi: nat)
    requires lo <= mid <= hi <= |s|
    ensures s[lo..hi] == s[lo..mid] + s[mid..hi]
  {
  }

  lemma FilledOneMore(s: seq<Byte>, vs: seq<Var>, k: nat)
    requires k < |vs| && Filled(s, vs, k)
    ensures var names := ENTRY_SIZE * |vs| + |Pool(vs[..k])|;
      && names + |vs[k].name| + 1 <= |s|
      && Filled(Over(Over(s, ENTRY_SIZE * k, Head(vs, k, 0)), names, vs[k].name + [0]), vs, k + 1)
  {
    hide Pool, Heads, Image, Head, Over;
    PoolOneMore(vs, k);
    PoolMonotone(vs, k + 1);
    ImageSize(vs);
    HeadsOneMore(vs, k, 0);
    var start, lo := ENTRY_SIZE * |vs|, ENTRY_SIZE * k;
    var names := start + |Pool(vs[..k])|;
    var h, n := Head(vs, k, 0), vs[k].name + [0];
    var s1 := Over(s, lo, h);
    OverSlices(s, lo, h, 0, lo);
    OverSlices(s, lo, h, start, names);
    SplitSlice(s1, 0, lo, lo + ENTRY_SIZE);
    var s2 := Over(s1, names, n);
    OverSlices(s1, names, n, 0, lo + ENTRY_SIZE);
    OverSlices(s1, names, n, start, names);
    SplitSlice(s2, start, names, names + |n|);
  }

  /** Writes the entry and the name of variable k. */
  method CopyVar(buf: array<Byte>, ghost vs: seq<Var>, k: nat, nelems: nat, names: nat, v: Var)
    requires k < |vs| == nelems && v == vs[k] && Filled(buf[..], vs, k)
    requires names == ENTRY_SIZE * nelems + |Pool(vs[..k])|
    modifies buf
    ensures Filled(buf[..], vs, k + 1)
  {
    hide Int64, Pool, Heads, Image, Over;
    FilledOneMore(buf[..], vs, k);
    Put(buf, ENTRY_SIZE * k, Int64(names) + Int64(v.addr));
    Put(buf, names, v.name + [0]);
  }

  lemma HeadsOneMore(vs: seq<Var>, k: nat, base: int)
    requires k < |vs|
    ensures Heads(vs, k + 1, base) == Heads(vs, k, base) + Head(vs, k, base)
  {
  }

  lemma NothingFilled(bs: seq<Byte>, vs: seq<Var>)
    requires |bs| == |Image(vs, 0)|
    ensures Filled(bs, vs, 0)
  {
  }

  lemma AllFilled(bs: seq<Byte>, vs: seq<Var>)
    requires Filled(bs, vs, |vs|)
    ensures bs == Image(vs, 0)
  {
    assert vs[..|vs|] == vs;
    assert bs == bs[..ENTRY_SIZE * |vs|] + bs[ENTRY_SIZE * |vs|..];
  }

  /** Fills exactly the table_size bytes of the buffer. */
  method TableCopy(tables: seq<seq<Slot>>, buf: array<Byte>, nelems: nat)
    requires nelems == |Vars(tables, 0)| && buf.Length == |Image(Vars(tables, 0), 0)|
    modifies buf
    ensures buf[..] == Image(Vars(tables, 0), 0)
  {
    hide Int64, Image, Pool, Filled;
    ghost var vs := Vars(tables, 0);
    NothingFilled(buf[..], vs);
    NoPool(vs);
    var k, names := 0, ENTRY_SIZE * nelems;
    for i := 0 to |tables|
      invariant k <= |vs| && Filled(buf[..], vs, k) && vs[k..] == Vars(tables, i)
      invariant names == ENTRY_SIZE * nelems + |Pool(vs[..k])|
    {
      var table := tables[i];
      for j := 0 to |table|
        invariant k <= |vs| && Filled(buf[..], vs, k)
        invariant vs[k..] == Used(table, j) + Vars(tables, i + 1)
        invariant names == ENTRY_SIZE * nelems + |Pool(vs[..k])|
      {
        if table[j].name.Some? {
          FirstRemaining(vs, k, table, j, Vars(tables, i + 1));
          PoolOneMore(vs, k);
          CopyVar(buf, vs, k, nelems, names, Var(table[j].name.value, table[j].addr));
          names := names + |table[j].name.value| + 1;
          k := k + 1;
        }
      }
    }
    AllFilled(buf[..], vs);
  }

  lemma Rebased(x: int, base: int)
    ensures Int64(Value(Int64(x)) + base) == Int64(x + base)
  {
    hide LittleEndian;
    Int64RoundTrip(x);
    assert (x % WIDE + base) % WIDE == (x + base) % WIDE;
  }

  /** What the buffer holds when i entries are patched. */
  ghost function Patched(vs: seq<Var>, i: nat, base: int): seq<Byte>
    requires i <= |vs|
  {
    Heads(vs, i, base) + Image(vs, 0)[ENTRY_SIZE * i..]
  }

  lemma PatchOneMore(vs: seq<Var>, i: nat, base: int)
    requires i < |vs|
    ensures var s, lo := Patched(vs, i, base), ENTRY_SIZE * i;
      && lo + 8 <= |s|
      && Over(s, lo, Int64(Value(s[lo..lo + 8]) + base)) == Patched(vs, i + 1, base)
  {
    hide Int64, Value, Heads, Pool, Image, Head, Over;
    var was, lo := Image(vs, 0), ENTRY_SIZE * i;
    var x := ENTRY_SIZE * |vs| + |Pool(vs[..i])|;
    ImageHas(vs, i, 0);
    HeadHalves(vs, i, 0);
    HeadHalves(vs, i, base);
    Halves(was, lo);
    Rebased(x, base);
    HeadsOneMore(vs, i, base);
    var heads, h := Heads(vs, i, base), Int64(x + base);
    OverTail(heads, was, h);
    SplitSlice(Head(vs, i, base), 0, 8, ENTRY_SIZE);
    assert Head(vs, i, base) == h + was[lo + 8..lo + ENTRY_SIZE];
  }

  lemma OverTail(a: seq<Byte>, was: seq<Byte>, h: seq<Byte>)
    requires |a| + ENTRY_SIZE <= |was| && |h| == 8
    ensures var s, lo := a + was[|a|..], |a|;
      && s[lo..lo + 8] == was[lo..lo + 8]
      && Over(s, lo, h) == a + (h + was[lo + 8..lo + ENTRY_SIZE]) + was[lo + ENTRY_SIZE..]
  {
  }

  /** Turns name offsets into pointers for a buffer at base. */
  method TablePatchNames(buf: array<Byte>, base: nat, nelems: nat, ghost vs: seq<Var>)
    requires nelems == |vs| && buf[..] == Image(vs, 0)
    modifies buf
    ensures buf[..] == Image(vs, base)
  {
    hide Int64, Pool, Heads, Value, Image, Patched, Over;
    ImageSize(vs);
    PatchedEnds(vs, base);
    for i := 0 to nelems
      invariant buf[..] == Patched(vs, i, base)
    {
      ghost var s := buf[..];
      PatchOneMore(vs, i, base);
      assert buf[ENTRY_SIZE * i..ENTRY_SIZE * i + 8] == s[ENTRY_SIZE * i..ENTRY_SIZE * i + 8];
      Put(buf, ENTRY_SIZE * i, Int64(Value(buf[ENTRY_SIZE * i..ENTRY_SIZE * i + 8]) + base));
    }
  }

  lemma PatchedEnds(vs: seq<Var>, base: int)
    ensures Patched(vs, 0, base) == Image(vs, 0)
    ensures Patched(vs, |vs|, base) == Image(vs, base)
  {
    hide Pool, Head;
    assert Image(vs, 0)[ENTRY_SIZE * |vs|..] == Pool(vs);
  }
}
