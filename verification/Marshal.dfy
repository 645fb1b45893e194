/** The byte stream between host and target, and the function tables of both. */
module Marshal {
  import opened Memory
  import opened CStrings

  const WIDE := 0x1_0000_0000_0000_0000

  /** The image of a 64-bit integer, signed or not. */
  function Int64(v: int): (bs: seq<Byte>)
    ensures |bs| == 8
  {
    LittleEndian(v % WIDE, 8)
  }

  function Signed(bs: seq<Byte>): int {
    var x := Value(bs);
    if x < WIDE / 2 then x else x - WIDE
  }

  predicate IsInt64(v: int) { -(WIDE / 2) <= v < WIDE / 2 }

  lemma Int64RoundTrip(v: int)
    ensures Value(Int64(v)) == v % WIDE
    ensures Signed(Int64(v)) == v <==> IsInt64(v)
  {
    EightBytes();
    ValueOfLittleEndian(v % WIDE, 8);
  }

  // -------------------------------------------------------- function tables

  datatype FuncEntry = FuncEntry(name: Option<Name>, func: int)

  /** The address of the first entry with the name. */
  function AddrIn(table: seq<FuncEntry>, name: Name): Option<int> {
    if |table| == 0 then None
    else if table[0].name == Some(name) then Some(table[0].func)
    else AddrIn(table[1..], name)
  }

  /** The search leaves only the inner loop on a hit, so the last table with a hit decides. */
  function AddrOf(tables: seq<seq<FuncEntry>>, name: Name): int {
    if |tables| == 0 then 0 else
      match AddrIn(tables[|tables| - 1], name)
      case Some(f) => f
      case None => AddrOf(tables[..|tables| - 1], name)
  }

  function NameIn(table: seq<FuncEntry>, func: int): Option<Option<Name>> {
    if |table| == 0 then None
    else if table[0].func == func then Some(table[0].name)
    else NameIn(table[1..], func)
  }

  function NameOf(tables: seq<seq<FuncEntry>>, func: int): Option<Name> {
    if |tables| == 0 then None else
      match NameIn(tables[|tables| - 1], func)
      case Some(n) => n
      case None => NameOf(tables[..|tables| - 1], func)
  }

  method FindAddr(tables: seq<seq<FuncEntry>>, name: Name) returns (func: int)
    ensures func == AddrOf(tables, name)
  {
    func := 0;
    for i := 0 to |tables|
      invariant func == AddrOf(tables[..i], name)
    {
      assert tables[..i + 1][..i] == tables[..i];
      var table := tables[i];
      var j := 0;
      while j < |table| && table[j].name != Some(name)
        invariant 0 <= j <= |table| && AddrIn(table, name) == AddrIn(table[j..], name)
      {
        j := j + 1;
      }
      if j < |table| {
        func := table[j].func;
      }
    }
    assert tables[..|tables|] == tables;
  }

  method FindName(tables: seq<seq<FuncEntry>>, func: int) returns (name: Option<Name>)
    ensures name == NameOf(tables, func)
  {
    name := None;
    for i := 0 to |tables|
      invariant name == NameOf(tables[..i], func)
    {
      assert tables[..i + 1][..i] == tables[..i];
      var table := tables[i];
      var j := 0;
      while j < |table| && table[j].func != func
        invariant 0 <= j <= |table| && NameIn(table, func) == NameIn(table[j..], func)
      {
        j := j + 1;
      }
      if j < |table| {
        name := table[j].name;
      }
    }
    assert tables[..|tables|] == tables;
  }

  ghost predicate Has(tables: seq<seq<FuncEntry>>, name: Name, func: int) {
    exists i, j :: 0 <= i < |tables| && 0 <= j < |tables[i]| && tables[i][j] == FuncEntry(Some(name), func)
  }

  lemma {:induction false} AddrInTable(table: seq<FuncEntry>, name: Name)
    ensures match AddrIn(table, name)
      case Some(f) => exists j :: 0 <= j < |table| && table[j] == FuncEntry(Some(name), f)
      case None => forall j :: 0 <= j < |table| ==> table[j].name != Some(name)
  {
    if |table| > 0 && table[0].name != Some(name) {
      AddrInTable(table[1..], name);
      assert table == [table[0]] + table[1..];
    }
  }

  /** A name with a single address in all tables is found at that address. */
  lemma {:induction false} UniqueNameIsFound(tables: seq<seq<FuncEntry>>, name: Name, func: int)
    requires Has(tables, name, func) && forall f :: Has(tables, name, f) ==> f == func
    ensures AddrOf(tables, name) == func
  {
    var last := |tables| - 1;
    AddrInTable(tables[last], name);
    match AddrIn(tables[last], name)
    case Some(f) =>
      assert Has(tables, name, f);
    case None =>
      var rest := tables[..last];
      var i, j :| 0 <= i < |tables| && 0 <= j < |tables[i]| && tables[i][j] == FuncEntry(Some(name), func);
      assert rest[i][j] == FuncEntry(Some(name), func);
      forall f | Has(rest, name, f)
        ensures f == func
      {
        var i', j' :| 0 <= i' < |rest| && 0 <= j' < |rest[i']| && rest[i'][j'] == FuncEntry(Some(name), f);
        assert tables[i'][j'] == FuncEntry(Some(name), f);
        assert Has(tables, name, f);
      }
      UniqueNameIsFound(rest, name, func);
  }

  /** A table that is registered later hides the address an earlier one has for a name. */
  lemma LaterTableDecides()
    ensures AddrOf([[FuncEntry(Some([102]), 1)], [FuncEntry(Some([102]), 2)]], [102]) == 2
  {
  }

  /** The order of the tables does not matter to the name. */
  ghost predicate OrderIrrelevant(tables: seq<seq<FuncEntry>>, name: Name) {
    forall ts: seq<seq<FuncEntry>> {:trigger AddrOf(ts, name)} ::
      multiset(ts) == multiset(tables) ==> AddrOf(ts, name) == AddrOf(tables, name)
  }

  /** All tables that have the name have the same address for it. */
  predicate TablesAgree(tables: seq<seq<FuncEntry>>, name: Name) {
    forall i, j :: 0 <= i < |tables| && 0 <= j < |tables| ==>
      AddrIn(tables[i], name).None? || AddrIn(tables[j], name).None? || AddrIn(tables[i], name) == AddrIn(tables[j], name)
  }

  /** The address found is the one of some table with the name. */
  lemma {:induction false} AddrOfSome(tables: seq<seq<FuncEntry>>, name: Name) returns (i: nat)
    ensures if i < |tables| then AddrIn(tables[i], name) == Some(AddrOf(tables, name))
            else AddrOf(tables, name) == 0 && forall j :: 0 <= j < |tables| ==> AddrIn(tables[j], name).None?
    decreases |tables|
  {
    var last := |tables| - 1;
    if tables == [] {
      i := 0;
    } else if AddrIn(tables[last], name).Some? {
      i := last;
    } else {
      i := AddrOfSome(tables[..last], name);
      if i == last {
        i := |tables|;
        assert forall j :: 0 <= j < last ==> tables[j] == tables[..last][j];
      }
    }
  }

  lemma LastDecides(tables: seq<seq<FuncEntry>>, name: Name, i: nat) returns (ts: seq<seq<FuncEntry>>)
    requires i < |tables| && AddrIn(tables[i], name).Some?
    ensures multiset(ts) == multiset(tables) && AddrOf(ts, name) == AddrIn(tables[i], name).value
  {
    ts := tables[..i] + tables[i + 1..] + [tables[i]];
    assert tables == tables[..i] + [tables[i]] + tables[i + 1..];
  }

  /** The order in which tables were registered is irrelevant exactly when they agree on the name. */
  lemma OrderIrrelevantIff(tables: seq<seq<FuncEntry>>, name: Name)
    ensures OrderIrrelevant(tables, name) <==> TablesAgree(tables, name)
  {
    hide AddrIn, AddrOf;
    if TablesAgree(tables, name) {
      forall ts: seq<seq<FuncEntry>> | multiset(ts) == multiset(tables)
        ensures AddrOf(ts, name) == AddrOf(tables, name)
      {
        SameAddress(tables, ts, name);
      }
    } else {
      var i, j :| 0 <= i < |tables| && 0 <= j < |tables|
        && AddrIn(tables[i], name).Some? && AddrIn(tables[j], name).Some?
        && AddrIn(tables[i], name) != AddrIn(tables[j], name);
      var ts := LastDecides(tables, name, i);
      var ts' := LastDecides(tables, name, j);
      assert !(AddrOf(ts, name) == AddrOf(tables, name) == AddrOf(ts', name));
    }
  }

  lemma SameAddress(tables: seq<seq<FuncEntry>>, ts: seq<seq<FuncEntry>>, name: Name)
    requires TablesAgree(tables, name) && multiset(ts) == multiset(tables)
    ensures AddrOf(ts, name) == AddrOf(tables, name)
  {
    hide AddrIn, AddrOf;
    var i := AddrOfSome(tables, name);
    var j := AddrOfSome(ts, name);
    if i < |tables| {
      assert tables[i] in multiset(ts);
      var i' :| 0 <= i' < |ts| && ts[i'] == tables[i];
    }
    if j < |ts| {
      assert ts[j] in multiset(tables);
      var j' :| 0 <= j' < |tables| && tables[j'] == ts[j];
    }
  }

  /** Entry j is the first of the table with the address. */
  predicate FirstWith(table: seq<FuncEntry>, func: int, j: nat) {
    j < |table| && table[j].func == func && Unknown(table[..j], func)
  }

  predicate Unknown(table: seq<FuncEntry>, func: int) {
    forall e :: e in table ==> e.func != func
  }

  /** Entry j of table i is the first with the address in the last table that has it. */
  ghost predicate Deciding(tables: seq<seq<FuncEntry>>, func: int, i: nat, j: nat) {
    i < |tables| && FirstWith(tables[i], func, j) && forall l :: i < l < |tables| ==> Unknown(tables[l], func)
  }

  lemma {:induction false} NameInTable(table: seq<FuncEntry>, func: int) returns (j: nat)
    ensures match NameIn(table, func)
      case None => Unknown(table, func)
      case Some(n) => FirstWith(table, func, j) && n == table[j].name
    decreases |table|
  {
    j := 0;
    if |table| > 0 {
      assert table == [table[0]] + table[1..];
      if table[0].func != func {
        j := NameInTable(table[1..], func);
        if NameIn(table[1..], func).Some? {
          assert table[..j + 1] == [table[0]] + table[1..][..j];
          j := j + 1;
        }
      }
    }
  }

  /** The name found for an address is the one of the deciding entry, and none if no table has the address. */
  lemma {:induction false} NameOfDeciding(tables: seq<seq<FuncEntry>>, func: int) returns (i: nat, j: nat)
    ensures if Deciding(tables, func, i, j) then NameOf(tables, func) == tables[i][j].name
            else NameOf(tables, func) == None && forall l :: 0 <= l < |tables| ==> Unknown(tables[l], func)
    decreases |tables|
  {
    hide NameIn, Unknown;
    i, j := 0, 0;
    if |tables| > 0 {
      var last := |tables| - 1;
      j := NameInTable(tables[last], func);
      i := last;
      if NameIn(tables[last], func).None? {
        i, j := NameOfDeciding(tables[..last], func);
        if !Deciding(tables[..last], func, i, j) {
          i := |tables|;
          assert forall l :: 0 <= l < last ==> tables[l] == tables[..last][l];
        } else {
          assert forall l :: 0 <= l < last ==> tables[l] == tables[..last][l];
        }
      }
    }
  }

  // ------------------------------------------------------- reading a stream

  /** A value that was read and what is left of the stream. */
  datatype Taken<T> = Taken(value: T, rest: seq<Byte>)

  function Take(bs: seq<Byte>, n: nat): Option<Taken<seq<Byte>>> {
    if n <= |bs| then Some(Taken(bs[..n], bs[n..])) else None
  }

  /** The image of a function pointer: its name, or the empty string for null. */
  function FuncImage(tables: seq<seq<FuncEntry>>, func: int): Option<seq<Byte>> {
    if func == 0 then Some([0]) else
      match NameOf(tables, func)
      case None => None
      case Some(name) => Some(name + [0])
  }

  /** None where the source stops or no NUL ends the name. */
  function TakeFunc(tables: seq<seq<FuncEntry>>, bs: seq<Byte>): Option<Taken<int>> {
    var name := CString(bs, 0);
    if |name| >= |bs| then None
    else if name == [] then Some(Taken(0, bs[1..]))
    else if AddrOf(tables, name) == 0 then None
    else Some(Taken(AddrOf(tables, name), bs[|name| + 1..]))
  }

  lemma TakeWritten(bs: seq<Byte>, rest: seq<Byte>)
    ensures Take(bs + rest, |bs|) == Some(Taken(bs, rest))
  {
  }

  /** A function pointer arrives as the target's function of the same name, if there is one. */
  lemma FuncArrives(host: seq<seq<FuncEntry>>, target: seq<seq<FuncEntry>>, func: int, rest: seq<Byte>)
    requires FuncImage(host, func).Some?
    requires func != 0 ==> NameOf(host, func).value != [] && NulFree(NameOf(host, func).value)
    ensures TakeFunc(target, FuncImage(host, func).value + rest) ==
      if func == 0 then Some(Taken(0, rest))
      else
        var f := AddrOf(target, NameOf(host, func).value);
        if f == 0 then None else Some(Taken(f, rest))
  {
    var bs := FuncImage(host, func).value + rest;
    var name := if func == 0 then [] else NameOf(host, func).value;
    assert bs == name + [0] + rest;
    assert bs[0..|name|] == name;
    CStringReads(bs, 0, name);
  }

  // ------------------------------------------------------------- the class

  class Marshaller {
    var buffer: array<Byte>
    var ptr: nat
    var tfrSize: nat

    constructor (buffer: array<Byte>)
      ensures this.buffer == buffer && ptr == 0 && tfrSize == 0
    {
      this.buffer, ptr, tfrSize := buffer, 0, 0;
    }

    ghost predicate Valid() reads this { ptr <= buffer.Length }

    ghost function Written(): seq<Byte>
      reads this, buffer
      requires Valid()
    {
      buffer[..ptr]
    }

    ghost function Unread(): seq<Byte>
      reads this, buffer
      requires Valid()
    {
      buffer[ptr..]
    }

    method SendData(data: seq<Byte>)
      requires Valid() && ptr + |data| <= buffer.Length
      modifies this`ptr, this`tfrSize, buffer
      ensures Valid() && Written() == old(Written()) + data && tfrSize == old(tfrSize) + |data|
      ensures Unread() == old(Unread())[|data|..]
    {
      for j := 0 to |data|
        invariant ptr == old(ptr) && tfrSize == old(tfrSize)
        invariant buffer[..ptr + j] == old(buffer[..ptr]) + data[..j]
        invariant buffer[ptr + j..] == old(buffer[ptr..])[j..]
      {
        buffer[ptr + j] := data[j];
        assert buffer[..ptr + j + 1] == buffer[..ptr + j] + [data[j]];
        assert data[..j + 1] == data[..j] + [data[j]];
      }
      assert data[..|data|] == data;
      ptr, tfrSize := ptr + |data|, tfrSize + |data|;
    }

    /** None where the source would read past the end of the buffer. */
    method ReceiveData(length: nat) returns (r: Option<seq<Byte>>)
      requires Valid()
      modifies this`ptr, this`tfrSize
      ensures Valid()
      ensures match Take(old(Unread()), length)
        case None => r.None? && Unread() == old(Unread())
        case Some(t) => r == Some(t.value) && Unread() == t.rest && tfrSize == old(tfrSize) + length
    {
      if ptr + length > buffer.Length {
        return None;
      }
      r := Some(buffer[ptr..ptr + length]);
      assert buffer[ptr..][..length] == buffer[ptr..ptr + length];
      assert buffer[ptr..][length..] == buffer[ptr + length..];
      ptr, tfrSize := ptr + length, tfrSize + length;
    }

    /** False where the source stops: the function is in no table. */
    method SendFuncPtr(tables: seq<seq<FuncEntry>>, data: int) returns (ok: bool)
      requires Valid()
      requires FuncImage(tables, data).Some? ==> ptr + |FuncImage(tables, data).value| <= buffer.Length
      modifies this`ptr, this`tfrSize, buffer
      ensures Valid() && ok == FuncImage(tables, data).Some?
      ensures ok ==> Written() == old(Written()) + FuncImage(tables, data).value
      ensures ok ==> Unread() == old(Unread())[|FuncImage(tables, data).value|..]
    {
      var name: Name := [];
      if data != 0 {
        var found := FindName(tables, data);
        if found.None? {
          return false;
        }
        name := found.value;
      }
      SendData(name + [0]);
      ok := true;
    }

    method ReceiveFuncPtr(tables: seq<seq<FuncEntry>>) returns (r: Option<int>)
      requires Valid()
      modifies this`ptr, this`tfrSize
      ensures Valid()
      ensures match TakeFunc(tables, old(Unread()))
        case None => r.None?
        case Some(t) => r == Some(t.value) && Unread() == t.rest
    {
      var name := CString(buffer[ptr..], 0);
      if ptr + |name| >= buffer.Length {
        return None;
      }
      if name != [] {
        var func := FindAddr(tables, name);
        if func == 0 {
          return None;
        }
        r := Some(func);
      } else {
        r := Some(0);
      }
      ptr, tfrSize := ptr + |name| + 1, tfrSize + |name| + 1;
    }
  }
}
