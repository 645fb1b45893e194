/** Renaming of external symbols in an object file. */
module SymbolHider {
  import opened Memory
  import opened CStrings
  import opened CoffStrings
  import opened NameSets

  /** "__kmp_external_" */
  const PREFIX: Name :=
    [95, 95, 107, 109, 112, 95, 101, 120, 116, 101, 114, 110, 97, 108, 95]

  const EXTERNAL: Byte := 2

  /** An entry of the symbol table, primary or auxiliary. */
  type Record = r: seq<Byte> | |r| == 18 witness seq(18, _ => 0)

  function NAux(r: Record): nat { r[17] }

  /** An object file: what precedes the symbol table, the symbol table, the string table. */
  datatype Obj = Obj(header: seq<Byte>, records: seq<Record>, strings: seq<Byte>)

  /** The auxiliary entries fit behind their symbols; their number is a signed char. */
  predicate WellFormed(rs: seq<Record>)
    decreases |rs|
  {
    |rs| > 0 ==> NAux(rs[0]) < 128 && NAux(rs[0]) < |rs| && WellFormed(rs[NAux(rs[0]) + 1..])
  }

  /** A symbol: its name, its other bytes, its auxiliary entries. */
  datatype Symbol = Symbol(name: Name, rest: seq<Byte>, aux: seq<Record>) {
    predicate External() { |rest| == 10 && rest[8] == EXTERNAL }
    predicate Defined() { External() && Value(rest[4..6]) != 0 }
    predicate Undefined() { External() && Value(rest[4..6]) == 0 }
  }

  function FirstSymbol(rs: seq<Record>, name: Name): Symbol
    requires |rs| > 0 && WellFormed(rs)
  {
    Symbol(name, rs[0][8..], rs[1..NAux(rs[0]) + 1])
  }

  /** The symbols of a table; None when a name cannot be decoded. */
  function Symbols(data: seq<Byte>, rs: seq<Record>): Option<seq<Symbol>>
    requires WellFormed(rs)
    decreases |rs|
  {
    if |rs| == 0 then Some([]) else
      match (Decode(data, rs[0][..8]), Symbols(data, rs[NAux(rs[0]) + 1..]))
      case (Some(name), Some(more)) => Some([FirstSymbol(rs, name)] + more)
      case _ => None
  }

  /** What every decoded symbol satisfies. */
  ghost predicate Formed(s: Symbol) {
    |s.rest| == 10 && s.rest[9] == |s.aux| < 128 && NulFree(s.name)
  }

  lemma {:induction false} SymbolsAreFormed(data: seq<Byte>, rs: seq<Record>)
    requires WellFormed(rs) && Symbols(data, rs).Some?
    ensures forall s :: s in Symbols(data, rs).value ==> Formed(s)
    decreases |rs|
  {
    hide CString, Value, NulFree;
    if |rs| > 0 {
      var x := rs[0][..8];
      CStringIsNulFree(x, 0);
      if Value(x[4..]) < |data| {
        CStringIsNulFree(data, Value(x[4..]));
      }
      SymbolsAreFormed(data, rs[NAux(rs[0]) + 1..]);
    }
  }

  // ---------------------------------------------------------------- renaming

  function NewName(hidden: NameSet, s: Symbol): Name {
    if s.External() && s.name in hidden then PREFIX + s.name else s.name
  }

  /** The meaning of hiding: external symbols in the set get the prefix, nothing else changes. */
  function Renamed(hidden: NameSet, ss: seq<Symbol>): (r: seq<Symbol>)
    ensures |r| == |ss|
    ensures forall i :: 0 <= i < |ss| ==> r[i] == ss[i].(name := NewName(hidden, ss[i]))
  {
    if |ss| == 0 then [] else
      Renamed(hidden, ss[..|ss| - 1])
      + [ss[|ss| - 1].(name := NewName(hidden, ss[|ss| - 1]))]
  }

  /** The set of the names of the symbols. */
  function Names(ss: seq<Symbol>): seq<Name> {
    if |ss| == 0 then [] else Insert(Names(ss[..|ss| - 1]), ss[|ss| - 1].name)
  }

  lemma {:induction false} NamesAreTheNames(ss: seq<Symbol>)
    ensures Sorted(Names(ss))
    ensures forall i :: 0 <= i < |ss| ==> ss[i].name in Names(ss)
    ensures forall x :: x in Names(ss) ==> exists i :: 0 <= i < |ss| && ss[i].name == x
    decreases |ss|
  {
    hide Sorted, Insert;
    if |ss| > 0 {
      var rest := ss[..|ss| - 1];
      NamesAreTheNames(rest);
      InsertAdds(Names(rest), ss[|ss| - 1].name);
      assert forall i :: 0 <= i < |rest| ==> rest[i] == ss[i];
    } else {
      assert Sorted([]) by { EmptyIsSorted(); }
    }
  }

  lemma EmptyIsSorted()
    ensures Sorted([])
  {
  }

  /** The records of a symbol, its name written under table t. */
  function Records(t: Table, s: Symbol): seq<Record>
    requires |s.rest| == 10 && Encode(t, s.name).Some?
  {
    var first: Record := Encode(t, s.name).value + s.rest;
    [first] + s.aux
  }

  ghost predicate Writable(t: Table, ss: seq<Symbol>) {
    forall s :: s in ss ==> Formed(s) && Encode(t, s.name).Some?
  }

  function Written(t: Table, ss: seq<Symbol>): seq<Record>
    requires Writable(t, ss)
  {
    if |ss| == 0 then [] else Records(t, ss[0]) + Written(t, ss[1..])
  }

  // ------------------------------------------------------- reading it back

  ghost predicate Survives(t: Table, s: Symbol) {
    s.name != [] || |t.data| % 256 == 0
  }

  ghost predicate AllSurvive(t: Table, ss: seq<Symbol>) {
    forall s :: s in ss ==> Survives(t, s)
  }

  lemma SurvivesFirst(t: Table, ss: seq<Symbol>)
    requires |ss| > 0
    ensures AllSurvive(t, ss) <==> Survives(t, ss[0]) && AllSurvive(t, ss[1..])
  {
    hide Survives;
    assert ss == [ss[0]] + ss[1..];
  }

  lemma {:induction false} FirstIsReadBack(t: Table, s: Symbol, more: seq<Record>)
    requires Formed(s) && Encode(t, s.name).Some? && WellFormed(more)
    ensures var rs := Records(t, s) + more;
      && |rs| > 0 && WellFormed(rs)
      && rs[0][..8] == Encode(t, s.name).value
      && rs[NAux(rs[0]) + 1..] == more
      && forall name :: FirstSymbol(rs, name) == s.(name := name)
  {
    hide Encode, NulFree;
    var rs := Records(t, s) + more;
    var x := Encode(t, s.name).value;
    assert rs[0] == x + s.rest && NAux(rs[0]) == |s.aux|;
    assert rs[0][..8] == x && rs[0][8..] == s.rest;
    assert rs[|s.aux| + 1..] == more;
    assert rs[1..|s.aux| + 1] == s.aux;
  }

  /**
   * Symbols written under a table made for their names are read back as they were, exactly when
   * none has the empty name (or the size of the table happens to end in a zero byte).
   */
  lemma {:induction false} WrittenIsReadBack(t: Table, strings: seq<Name>, ss: seq<Symbol>)
    requires TableOf(t, strings) && Writable(t, ss)
    requires forall s :: s in ss ==> s.name in strings
    ensures WellFormed(Written(t, ss)) && Symbols(t.data, Written(t, ss)).Some?
    ensures Symbols(t.data, Written(t, ss)).value == ss <==> AllSurvive(t, ss)
    decreases |ss|
  {
    hide AllSurvive, Encode, Decode, TableOf, NulFree, WellFormed, Records;
    if |ss| > 0 {
      var more := Written(t, ss[1..]);
      WrittenIsReadBack(t, strings, ss[1..]);
      FirstIsReadBack(t, ss[0], more);
      RoundTrip(t, strings, ss[0].name);
      SurvivesFirst(t, ss);
      var rs := Records(t, ss[0]) + more;
      assert Written(t, ss) == rs;
      var name := Decode(t.data, Encode(t, ss[0].name).value).value;
      assert Symbols(t.data, rs).value
          == [ss[0].(name := name)] + Symbols(t.data, more).value;
      SameWhenBothAre(ss, name, Symbols(t.data, more).value);
    } else {
      assert WellFormed([]) by { NoRecords(); }
      assert AllSurvive(t, []) by { NoneIsLost(t); }
    }
  }

  lemma NoneIsLost(t: Table)
    ensures AllSurvive(t, [])
  {
  }

  lemma SameWhenBothAre(ss: seq<Symbol>, name: Name, more: seq<Symbol>)
    requires |ss| > 0
    ensures [ss[0].(name := name)] + more == ss <==> name == ss[0].name && more == ss[1..]
  {
    var r := [ss[0].(name := name)] + more;
    assert r[0] == ss[0].(name := name) && r[1..] == more;
    assert ss == [ss[0]] + ss[1..];
  }

  lemma NoRecords()
    ensures WellFormed([])
  {
  }

  // ------------------------------------------------------------ the two passes

  /** After i records the loop has seen the symbols in done. */
  ghost predicate Seen(data: seq<Byte>, rs: seq<Record>, i: nat, done: seq<Symbol>)
    requires WellFormed(rs)
  {
    && i <= |rs| && WellFormed(rs[i..])
    && match Symbols(data, rs[i..])
       case Some(more) => Symbols(data, rs) == Some(done + more)
       case None => Symbols(data, rs) == None
  }

  lemma SeenAtFirst(data: seq<Byte>, rs: seq<Record>)
    requires WellFormed(rs)
    ensures Seen(data, rs, 0, [])
  {
    assert rs[0..] == rs;
    if Symbols(data, rs).Some? {
      assert [] + Symbols(data, rs).value == Symbols(data, rs).value;
    }
  }

  /** The symbols from record i on are the one at i and those behind its auxiliary entries. */
  lemma SymbolsFrom(data: seq<Byte>, rs: seq<Record>, i: nat)
    requires i < |rs| && WellFormed(rs[i..])
    ensures var next := i + 1 + NAux(rs[i]);
      && next <= |rs| && WellFormed(rs[next..])
      && Symbols(data, rs[i..]) ==
         match (Decode(data, rs[i][..8]), Symbols(data, rs[next..]))
         case (Some(name), Some(more)) => Some([FirstSymbol(rs[i..], name)] + more)
         case _ => None
  {
    hide Decode, FirstSymbol;
    var n := NAux(rs[i]);
    assert rs[i..][0] == rs[i];
    assert rs[i..][n + 1..] == rs[i + 1 + n..];
  }

  lemma SeenOneMore(data: seq<Byte>, rs: seq<Record>, i: nat, done: seq<Symbol>)
    requires WellFormed(rs) && i < |rs| && Seen(data, rs, i, done)
    ensures i + 1 + NAux(rs[i]) <= |rs|
    ensures match Decode(data, rs[i][..8])
      case None => Symbols(data, rs) == None
      case Some(name) =>
        Seen(data, rs, i + 1 + NAux(rs[i]), done + [FirstSymbol(rs[i..], name)])
  {
    hide Decode, Symbols, WellFormed, FirstSymbol;
    SymbolsFrom(data, rs, i);
    var x, later := Decode(data, rs[i][..8]), Symbols(data, rs[i + 1 + NAux(rs[i])..]);
    if x.Some? && later.Some? {
      var first := FirstSymbol(rs[i..], x.value);
      assert done + ([first] + later.value) == (done + [first]) + later.value;
    }
  }

  lemma SeenAll(data: seq<Byte>, rs: seq<Record>, done: seq<Symbol>)
    requires WellFormed(rs) && Seen(data, rs, |rs|, done)
    ensures Symbols(data, rs) == Some(done)
  {
    assert rs[|rs|..] == [] && done + [] == done;
  }

  lemma AddRenamed(hidden: NameSet, done: seq<Symbol>, s: Symbol)
    ensures Renamed(hidden, done + [s]) == Renamed(hidden, done) + [s.(name := NewName(hidden, s))]
    ensures Names(Renamed(hidden, done + [s]))
         == Insert(Names(Renamed(hidden, done)), NewName(hidden, s))
  {
    hide Insert, NewName;
    assert (done + [s])[..|done|] == done;
    var r := Renamed(hidden, done + [s]);
    assert r[..|done|] == Renamed(hidden, done);
  }

  /** The set of the names that will occur; None where a name cannot be decoded. */
  method CollectNames(oldTable: StringTable, rs: seq<Record>, hidden: NameSet)
    returns (r: Option<seq<Name>>)
    requires WellFormed(rs)
    ensures r == match Symbols(oldTable.data[..], rs)
                 case None => None
                 case Some(ss) => Some(Names(Renamed(hidden, ss)))
  {
    hide Symbols, Seen, Decode, WellFormed, Insert, Names, Renamed;
    var data := oldTable.data[..];
    var strings: seq<Name> := [];
    ghost var done: seq<Symbol> := [];
    SeenAtFirst(data, rs);
    assert Names(Renamed(hidden, [])) == [] by { NothingRenamed(hidden); }
    var i := 0;
    while i < |rs|
      invariant 0 <= i <= |rs| && Seen(data, rs, i, done)
      invariant strings == Names(Renamed(hidden, done))
    {
      var e := rs[i];
      SeenOneMore(data, rs, i, done);
      var x := oldTable.DecodeName(e[..8]);
      if x.None? {
        return None;
      }
      var s := x.value;
      ghost var sym := FirstOf(data, rs, i, s, done);
      AddRenamed(hidden, done, sym);
      done := done + [sym];
      strings := Insert(strings, if e[16] == EXTERNAL && s in hidden then PREFIX + s else s);
      i := i + 1 + NAux(e);
    }
    SeenAll(data, rs, done);
    return Some(strings);
  }

  lemma NothingRenamed(hidden: NameSet)
    ensures Names(Renamed(hidden, [])) == []
  {
  }

  /** The symbol at record i. */
  ghost function FirstOf(
    data: seq<Byte>, rs: seq<Record>, i: nat, name: Name, done: seq<Symbol>
  ): (s: Symbol)
    requires WellFormed(rs) && i < |rs| && Seen(data, rs, i, done)
    ensures s == FirstSymbol(rs[i..], name)
    ensures s.name == name && s.rest == rs[i][8..] && |s.rest| == 10
    ensures s.External() <==> rs[i][16] == EXTERNAL
    ensures i + 1 + NAux(rs[i]) <= |rs| && s.aux == rs[i + 1..i + 1 + NAux(rs[i])]
  {
    assert rs[i..][0] == rs[i];
    assert rs[i..][1..NAux(rs[i]) + 1] == rs[i + 1..i + 1 + NAux(rs[i])];
    FirstSymbol(rs[i..], name)
  }

  lemma {:induction false} WrittenOneMore(t: Table, ss: seq<Symbol>, s: Symbol)
    requires Writable(t, ss + [s])
    ensures Writable(t, ss) && Writable(t, [s])
    ensures Written(t, ss + [s]) == Written(t, ss) + Records(t, s)
    decreases |ss|
  {
    hide Encode, Formed, Records;
    assert forall x :: x in ss || x == s ==> x in ss + [s];
    assert Formed(s) && Encode(t, s.name).Some? by { LastIsWritable(t, ss, s); }
    if |ss| > 0 {
      assert (ss + [s])[1..] == ss[1..] + [s];
      WrittenOneMore(t, ss[1..], s);
    } else {
      assert ss + [s] == [s];
      OneWritten(t, s);
    }
  }

  lemma OneWritten(t: Table, s: Symbol)
    requires Writable(t, [s])
    ensures Formed(s) && Encode(t, s.name).Some? && Written(t, [s]) == Records(t, s)
  {
    hide Encode, NulFree, Records;
    assert s in [s];
    assert Written(t, [s][1..]) == [];
    assert Records(t, s) + [] == Records(t, s);
  }

  /** The renamed symbols can be written under a table made for their names. */
  lemma RenamedIsWritable(t: Table, hidden: NameSet, data: seq<Byte>, rs: seq<Record>)
    requires WellFormed(rs) && Symbols(data, rs).Some?
    requires TableOf(t, Names(Renamed(hidden, Symbols(data, rs).value)))
    ensures var after := Renamed(hidden, Symbols(data, rs).value);
      Writable(t, after) && forall s :: s in after ==> s.name in Names(after)
  {
    hide Encode, Decode, TableOf, Names, WellFormed, Symbols;
    var ss := Symbols(data, rs).value;
    var after := Renamed(hidden, ss);
    SymbolsAreFormed(data, rs);
    NamesAreTheNames(after);
    forall s | s in after
      ensures Formed(s) && Encode(t, s.name).Some?
    {
      hide Formed, NewName, NulFree, Renamed;
      var i :| 0 <= i < |after| && after[i] == s;
      RenamedIsFormed(hidden, ss, i);
      assert NulFree(s.name) by { FormedName(s); }
      RoundTrip(t, Names(after), s.name);
    }
  }

  lemma FormedName(s: Symbol)
    requires Formed(s)
    ensures NulFree(s.name)
  {
  }

  lemma RenamedIsFormed(hidden: NameSet, ss: seq<Symbol>, i: nat)
    requires i < |ss| && forall s :: s in ss ==> Formed(s)
    ensures Formed(Renamed(hidden, ss)[i])
  {
    hide Renamed;
    assert Formed(ss[i]);
    assert NulFree(NewName(hidden, ss[i]));
  }

  lemma WritablePrefix(t: Table, ss: seq<Symbol>, done: seq<Symbol>, s: Symbol, more: seq<Symbol>)
    requires Writable(t, ss) && ss == done + [s] + more
    ensures Writable(t, done + [s])
  {
    assert forall x :: x in done + [s] ==> x in ss;
  }

  /** A whole table was seen, so the part seen so far is a prefix of it. */
  lemma SeenIsPrefix(hidden: NameSet, data: seq<Byte>, rs: seq<Record>, i: nat, done: seq<Symbol>)
    returns (more: seq<Symbol>)
    requires WellFormed(rs) && Seen(data, rs, i, done) && Symbols(data, rs).Some?
    ensures Renamed(hidden, Symbols(data, rs).value) == Renamed(hidden, done) + more
  {
    hide Renamed, Symbols;
    var rest := SeenRest(data, rs, i, done);
    RenamedInParts(hidden, done, rest);
    more := Renamed(hidden, rest);
  }

  lemma SeenRest(data: seq<Byte>, rs: seq<Record>, i: nat, done: seq<Symbol>)
    returns (rest: seq<Symbol>)
    requires WellFormed(rs) && Seen(data, rs, i, done) && Symbols(data, rs).Some?
    ensures Symbols(data, rs).value == done + rest
  {
    hide Symbols, Decode;
    rest := Symbols(data, rs[i..]).value;
  }

  lemma RenamedInParts(hidden: NameSet, a: seq<Symbol>, b: seq<Symbol>)
    ensures Renamed(hidden, a + b) == Renamed(hidden, a) + Renamed(hidden, b)
  {
    hide Renamed, NewName;
  }

  /** Copies the symbol table with the names translated. */
  method WriteSymbols(oldTable: StringTable, rs: seq<Record>, hidden: NameSet, newTable: StringTable)
    returns (out: seq<Record>)
    requires WellFormed(rs) && Symbols(oldTable.data[..], rs).Some?
    requires TableOf(newTable.Contents(), Names(Renamed(hidden, Symbols(oldTable.data[..], rs).value)))
    ensures var ss := Renamed(hidden, Symbols(oldTable.data[..], rs).value);
      Writable(newTable.Contents(), ss) && out == Written(newTable.Contents(), ss)
  {
    hide Symbols, Seen, Decode, Encode, WellFormed, Names, Renamed, TableOf, Formed, Writable, Written;
    var data := oldTable.data[..];
    var t := newTable.Contents();
    ghost var ss := Renamed(hidden, Symbols(data, rs).value);
    RenamedIsWritable(t, hidden, data, rs);
    out := [];
    ghost var done: seq<Symbol> := [];
    SeenAtFirst(data, rs);
    NothingWritten(t, hidden);
    var i := 0;
    while i < |rs|
      invariant 0 <= i <= |rs| && Seen(data, rs, i, done)
      invariant Writable(t, Renamed(hidden, done)) && out == Written(t, Renamed(hidden, done))
    {
      var e := rs[i];
      SeenOneMore(data, rs, i, done);
      var x := oldTable.DecodeName(e[..8]);
      var s := x.value;
      ghost var sym := FirstOf(data, rs, i, s, done);
      ghost var renamed := sym.(name := NewName(hidden, sym));
      ghost var before := Renamed(hidden, done);
      AddRenamed(hidden, done, sym);
      done := done + [sym];
      ghost var more := SeenIsPrefix(hidden, data, rs, i + 1 + NAux(e), done);
      WritablePrefix(t, ss, before, renamed, more);
      WrittenOneMore(t, before, renamed);
      LastIsWritable(t, before, renamed);
      var name := newTable.EncodeName(if e[16] == EXTERNAL && s in hidden then PREFIX + s else s);
      var first: Record := name.value + e[8..];
      ghost var written := out;
      out := out + [first];
      for j := 1 to NAux(e) + 1
        invariant out == written + ([first] + rs[i + 1..i + j])
      {
        assert rs[i + 1..i + j + 1] == rs[i + 1..i + j] + [rs[i + j]];
        out := out + [rs[i + j]];
      }
      i := i + 1 + NAux(e);
    }
    SeenAll(data, rs, done);
  }

  lemma LastIsWritable(t: Table, ss: seq<Symbol>, s: Symbol)
    requires Writable(t, ss + [s])
    ensures Formed(s) && Encode(t, s.name).Some?
  {
    assert s in ss + [s];
  }

  lemma NothingWritten(t: Table, hidden: NameSet)
    ensures Writable(t, Renamed(hidden, [])) && Written(t, Renamed(hidden, [])) == []
  {
  }

  // ------------------------------------------------------------- the results

  function SymbolsOf(o: Obj): Option<seq<Symbol>>
    requires WellFormed(o.records)
  {
    Symbols(o.strings, o.records)
  }

  /** The source stops: a name points outside the string table, or the new table is too long. */
  ghost predicate Stops(o: Obj, hidden: NameSet)
    requires WellFormed(o.records)
  {
    match SymbolsOf(o)
    case None => true
    case Some(ss) => 4 + |Pool(Names(Renamed(hidden, ss)))| >= Pow256(4)
  }

  /** No symbol is left without a name. */
  ghost predicate Named(hidden: NameSet, ss: seq<Symbol>) {
    forall s :: s in ss ==> NewName(hidden, s) != []
  }

  lemma RenamedIsNamed(hidden: NameSet, ss: seq<Symbol>)
    ensures Named(hidden, ss) <==> forall s :: s in Renamed(hidden, ss) ==> s.name != []
  {
    hide Renamed, NewName;
    var r := Renamed(hidden, ss);
    assert forall i :: 0 <= i < |ss| ==> ss[i] in ss && r[i] in r;
    forall s | s in ss && forall x :: x in r ==> x.name != []
      ensures NewName(hidden, s) != []
    {
      var i :| 0 <= i < |ss| && ss[i] == s;
      assert r[i] in r;
    }
  }

  /**
   * o' decodes, under its own string table, to the symbols of o with the renaming applied and all
   * else untouched, exactly when no symbol is left nameless (or the size of the new string table
   * happens to end in a zero byte).
   */
  ghost predicate HiddenVersion(o: Obj, hidden: NameSet, o': Obj) {
    && WellFormed(o.records) && WellFormed(o'.records)
    && SymbolsOf(o).Some? && SymbolsOf(o').Some?
    && o'.header == o.header
    && (SymbolsOf(o').value == Renamed(hidden, SymbolsOf(o).value)
        <==> Named(hidden, SymbolsOf(o).value) || |o'.strings| % 256 == 0)
  }

  /** hideSymbols; None where the source stops. */
  method HideSymbols(o: Obj, hidden: NameSet) returns (r: Option<Obj>)
    requires WellFormed(o.records)
    ensures r.None? <==> Stops(o, hidden)
    ensures r.Some? ==> HiddenVersion(o, hidden, r.value)
  {
    hide Symbols, WellFormed, Names, Renamed, TableOf, Pow256, Pool, Writable, Written;
    var buffer := new Byte[|o.strings|](i requires 0 <= i < |o.strings| => o.strings[i]);
    assert buffer[..] == o.strings;
    var oldTable := new StringTable(map[], buffer);
    var names := CollectNames(oldTable, o.records, hidden);
    if names.None? {
      return None;
    }
    var newTable := FromStrings(names.value);
    if newTable == null {
      return None;
    }
    var out := WriteSymbols(oldTable, o.records, hidden, newTable);
    ghost var t := newTable.Contents();
    ghost var ss := Renamed(hidden, SymbolsOf(o).value);
    RenamedIsWritable(t, hidden, o.strings, o.records);
    WrittenIsReadBack(t, names.value, ss);
    RenamedIsNamed(hidden, SymbolsOf(o).value);
    r := Some(Obj(o.header, out, newTable.data[..]));
  }

  /**
   * So symbol for symbol: one of external storage class with a hidden name gets the prefix, and
   * nothing else of any symbol changes, auxiliary entries included.
   */
  lemma SymbolIsHidden(o: Obj, hidden: NameSet, o': Obj, i: nat)
    requires HiddenVersion(o, hidden, o')
    requires Named(hidden, SymbolsOf(o).value) || |o'.strings| % 256 == 0
    ensures |SymbolsOf(o').value| == |SymbolsOf(o).value|
    ensures i < |SymbolsOf(o).value| ==>
      var s, s' := SymbolsOf(o).value[i], SymbolsOf(o').value[i];
      && s'.rest == s.rest && s'.aux == s.aux
      && s'.name == if |s.rest| == 10 && s.rest[8] == 2 && s.name in hidden then PREFIX + s.name else s.name
  {
    hide Symbols, WellFormed, Insert;
  }
}
