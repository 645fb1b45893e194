/** Which object files are kept, which names are hidden in them, and why they still link. */
module Linking {
  import opened Memory
  import opened CStrings
  import opened CoffStrings
  import opened NameSets
  import opened SymbolHider

  /** What linking sees of an object file. */
  datatype File = File(defined: set<Name>, undefined: set<Name>)

  function Elements(s: seq<Name>): set<Name> { set x | x in s }

  /** The two sets as the source keeps them. */
  datatype Externals = Externals(defined: NameSet, undefined: NameSet) {
    function Sets(): File { File(Elements(defined), Elements(undefined)) }
  }

  ghost predicate DependsOn(x: File, y: File) {
    exists s :: s in x.undefined && s in y.defined
  }

  // ------------------------------------------------- reading the external names

  function AddExternal(f: File, r: Record, name: Name): File {
    if Value(r[12..14]) != 0 then f.(defined := f.defined + {name})
    else f.(undefined := f.undefined + {name})
  }

  /** The external names of a symbol table; only they are decoded. */
  function ExternalNames(data: seq<Byte>, rs: seq<Record>): Option<File>
    requires WellFormed(rs)
    decreases |rs|
  {
    if |rs| == 0 then Some(File({}, {})) else
      match ExternalNames(data, rs[NAux(rs[0]) + 1..])
      case None => None
      case Some(f) =>
        if rs[0][16] != EXTERNAL then Some(f) else
          match Decode(data, rs[0][..8])
          case None => None
          case Some(name) => Some(AddExternal(f, rs[0], name))
  }

  function FileOf(o: Obj): Option<File>
    requires WellFormed(o.records)
  {
    ExternalNames(o.strings, o.records)
  }

  function Union(f: File, g: File): File {
    File(f.defined + g.defined, f.undefined + g.undefined)
  }

  /** After i records the loop has collected f. */
  ghost predicate Collected(data: seq<Byte>, rs: seq<Record>, i: nat, f: File)
    requires WellFormed(rs)
  {
    && i <= |rs| && WellFormed(rs[i..])
    && match ExternalNames(data, rs[i..])
       case None => ExternalNames(data, rs) == None
       case Some(g) => ExternalNames(data, rs) == Some(Union(f, g))
  }

  lemma CollectedNone(data: seq<Byte>, rs: seq<Record>)
    requires WellFormed(rs)
    ensures Collected(data, rs, 0, File({}, {}))
  {
    assert rs[0..] == rs;
    forall f: File ensures Union(File({}, {}), f) == f {}
  }

  lemma CollectedOneMore(data: seq<Byte>, rs: seq<Record>, i: nat, f: File)
    requires WellFormed(rs) && i < |rs| && Collected(data, rs, i, f)
    ensures i + 1 + NAux(rs[i]) <= |rs|
    ensures var next := i + 1 + NAux(rs[i]);
      if rs[i][16] != EXTERNAL then Collected(data, rs, next, f)
      else match Decode(data, rs[i][..8])
           case None => ExternalNames(data, rs) == None
           case Some(name) => Collected(data, rs, next, AddExternal(f, rs[i], name))
  {
    hide Decode, Value;
    var n := NAux(rs[i]);
    assert rs[i..][0] == rs[i];
    assert rs[i..][n + 1..] == rs[i + 1 + n..];
    var x := Decode(data, rs[i][..8]);
    if x.Some? && ExternalNames(data, rs[i + 1 + n..]).Some? {
      var g := ExternalNames(data, rs[i + 1 + n..]).value;
      assert Union(f, AddExternal(g, rs[i], x.value)) == Union(AddExternal(f, rs[i], x.value), g);
    }
  }

  lemma CollectedAll(data: seq<Byte>, rs: seq<Record>, f: File)
    requires WellFormed(rs) && Collected(data, rs, |rs|, f)
    ensures ExternalNames(data, rs) == Some(f)
  {
    assert rs[|rs|..] == [];
    assert Union(f, File({}, {})) == f;
  }

  /** computeExternalSymbols; None where the source stops. */
  method ComputeExternalSymbols(o: Obj) returns (r: Option<Externals>)
    requires WellFormed(o.records)
    ensures match FileOf(o)
            case None => r.None?
            case Some(f) => r.Some? && r.value.Sets() == f
  {
    hide WellFormed, Collected, ExternalNames, Decode, Insert, Sorted, Value;
    var buffer := new Byte[|o.strings|](i requires 0 <= i < |o.strings| => o.strings[i]);
    assert buffer[..] == o.strings;
    var strings := new StringTable(map[], buffer);
    assert Sorted([]) by { EmptyIsSorted(); }
    var defined: NameSet, undefined: NameSet := [], [];
    var i := 0;
    CollectedNone(o.strings, o.records);
    assert Externals(defined, undefined).Sets() == File({}, {});
    while i < |o.records|
      invariant 0 <= i <= |o.records|
      invariant strings.data[..] == o.strings
      invariant Collected(o.strings, o.records, i, Externals(defined, undefined).Sets())
    {
      var e := o.records[i];
      ghost var f := Externals(defined, undefined).Sets();
      CollectedOneMore(o.strings, o.records, i, f);
      if e[16] == EXTERNAL {
        var x := strings.DecodeName(e[..8]);
        if x.None? {
          return None;
        }
        if Value(e[12..14]) != 0 {
          InsertAdds(defined, x.value);
          assert Elements(Insert(defined, x.value)) == Elements(defined) + {x.value};
          defined := Insert(defined, x.value);
        } else {
          InsertAdds(undefined, x.value);
          assert Elements(Insert(undefined, x.value)) == Elements(undefined) + {x.value};
          undefined := Insert(undefined, x.value);
        }
        assert Externals(defined, undefined).Sets() == AddExternal(f, e, x.value);
      }
      i := i + 1 + NAux(e);
    }
    CollectedAll(o.strings, o.records, Externals(defined, undefined).Sets());
    r := Some(Externals(defined, undefined));
  }

  /** The external names of the symbols. */
  function Visible(ss: seq<Symbol>): File {
    File(set s | s in ss && s.Defined() :: s.name, set s | s in ss && s.Undefined() :: s.name)
  }

  /** When every name can be decoded, the sets are the external names of the decoded symbols. */
  lemma {:induction false} ExternalNamesOfSymbols(data: seq<Byte>, rs: seq<Record>)
    requires WellFormed(rs) && Symbols(data, rs).Some?
    ensures ExternalNames(data, rs) == Some(Visible(Symbols(data, rs).value))
    decreases |rs|
  {
    hide Decode, Value, Visible;
    if |rs| == 0 {
      assert Visible([]) == File({}, {}) by { NothingVisible(); }
    } else {
      var rest := rs[NAux(rs[0]) + 1..];
      ExternalNamesOfSymbols(data, rest);
      var s := FirstSymbol(rs, Decode(data, rs[0][..8]).value);
      assert s.rest == rs[0][8..] && s.rest[4..6] == rs[0][12..14];
      VisibleFirst(s, Symbols(data, rest).value);
    }
  }

  lemma NothingVisible()
    ensures Visible([]) == File({}, {})
  {
  }

  lemma VisibleFirst(s: Symbol, more: seq<Symbol>)
    ensures var f := Visible(more);
      Visible([s] + more) ==
        if s.Defined() then f.(defined := f.defined + {s.name})
        else if s.Undefined() then f.(undefined := f.undefined + {s.name})
        else f
  {
    hide Value;
    var ss := [s] + more;
    assert forall x :: x in ss <==> x == s || x in more;
  }

  // ----------------------------------------------------------- required files

  /** File x, by its number, depends on external file y. */
  ghost predicate Needs(fs: seq<File>, x: nat, y: nat) {
    x < |fs| && y < |fs| && DependsOn(fs[x], fs[y])
  }

  ghost predicate Internal(n: nat, fs: seq<File>, x: nat) {
    n <= x < |fs|
  }

  /** Every external file that an internal file or a file of c depends on is in c. */
  ghost predicate Closed(n: nat, fs: seq<File>, c: set<nat>) {
    forall x: nat, y: nat {:trigger Needs(fs, x, y)} ::
      (Internal(n, fs, x) || x in c) && y < n && Needs(fs, x, y) ==> y in c
  }

  /** The required files: the smallest closed set of external files. */
  ghost predicate Least(n: nat, fs: seq<File>, r: set<nat>) {
    && (forall y :: y in r ==> y < n)
    && Closed(n, fs, r)
    && forall c: set<nat> :: Closed(n, fs, c) ==> r <= c
  }

  function Files(es: seq<Externals>): (fs: seq<File>)
    ensures |fs| == |es| && forall i :: 0 <= i < |es| ==> fs[i] == es[i].Sets()
  {
    seq(|es|, i requires 0 <= i < |es| => es[i].Sets())
  }

  lemma {:induction false} SmallSet(r: set<nat>, n: nat)
    requires forall y :: y in r ==> y < n
    ensures |r| <= n
    decreases n
  {
    if n > 0 {
      SmallSet(r - {n - 1}, n - 1);
    } else {
      assert r == {};
    }
  }

  /** Of the files already looked at, everything they depend on is required. */
  ghost predicate LookedAt(n: nat, fs: seq<File>, required: set<nat>, todo: set<nat>) {
    forall x: nat, y: nat {:trigger Needs(fs, x, y)} ::
      (Internal(n, fs, x) || x in required) && x !in todo && y < n && Needs(fs, x, y)
      ==> y in required
  }

  ghost predicate BelowAllClosed(n: nat, fs: seq<File>, required: set<nat>) {
    forall c: set<nat> :: Closed(n, fs, c) ==> required <= c
  }

  /** The external files that file x depends on. */
  ghost function NeededBy(n: nat, fs: seq<File>, x: nat): set<nat> {
    set y: nat | y < n && Needs(fs, x, y)
  }

  lemma SharedName(x: Externals, y: Externals)
    ensures DependsOn(x.Sets(), y.Sets()) <==> exists s :: s in y.defined && s in x.undefined
  {
    if s :| s in y.defined && s in x.undefined {
      assert s in x.Sets().undefined && s in y.Sets().defined;
    }
  }

  /** Adds what file x depends on to the required files; next gets those that are new. */
  method AddNeeded(n: nat, es: seq<Externals>, x: nat, was: set<nat>, next0: set<nat>)
    returns (required: set<nat>, next: set<nat>, changed: bool)
    requires n <= |es| && x < |es|
    ensures required == was + NeededBy(n, Files(es), x)
    ensures next == next0 + (required - was)
    ensures changed <==> required != was
  {
    hide DependsOn;
    required, next, changed := was, next0, false;
    ghost var fs := Files(es);
    for i := 0 to n
      invariant forall y: nat :: y in required <==> y in was || (y < i && Needs(fs, x, y))
      invariant next == next0 + (required - was)
      invariant changed <==> required != was
    {
      if i !in required {
        var disjoint := IsDisjoint(es[i].defined, es[x].undefined);
        SharedName(es[x], es[i]);
        if !disjoint {
          required := required + {i};
          next := next + {i};
          changed := true;
        }
      }
    }
  }

  lemma KeepsLookedAt(n: nat, fs: seq<File>, was: set<nat>, todo: set<nat>, next: set<nat>, x: nat)
    requires LookedAt(n, fs, was, todo + next) && x in todo
    ensures var required := was + NeededBy(n, fs, x);
      LookedAt(n, fs, required, (todo - {x}) + (next + (required - was)))
  {
    hide Needs;
  }

  lemma KeepsBelow(n: nat, fs: seq<File>, was: set<nat>, x: nat)
    requires BelowAllClosed(n, fs, was) && (Internal(n, fs, x) || x in was)
    ensures BelowAllClosed(n, fs, was + NeededBy(n, fs, x))
  {
    hide Needs;
  }

  /** One round of the worklist: looks at the files in pending; next gets the new ones. */
  method Round(n: nat, es: seq<Externals>, was: set<nat>, pending: set<nat>)
    returns (required: set<nat>, next: set<nat>, changed: bool)
    requires n <= |es|
    requires forall y :: y in was ==> y < n
    requires forall x :: x in pending ==> Internal(n, Files(es), x) || x in was
    requires LookedAt(n, Files(es), was, pending) && BelowAllClosed(n, Files(es), was)
    ensures required == was + next && was !! next
    ensures changed <==> next != {}
    ensures forall y :: y in required ==> y < n
    ensures LookedAt(n, Files(es), required, next) && BelowAllClosed(n, Files(es), required)
  {
    hide Needs, LookedAt, BelowAllClosed, NeededBy;
    ghost var fs := Files(es);
    required, next, changed := was, {}, false;
    var todo := pending;
    assert todo + next == todo;
    while todo != {}
      invariant todo <= pending
      invariant required == was + next && was !! next
      invariant changed <==> next != {}
      invariant forall y :: y in required ==> y < n
      invariant LookedAt(n, fs, required, todo + next)
      invariant BelowAllClosed(n, fs, required)
    {
      var it :| it in todo;
      KeepsLookedAt(n, fs, required, todo, next, it);
      KeepsBelow(n, fs, required, it);
      NeededAreExternal(n, fs, it);
      var more;
      required, next, more := AddNeeded(n, es, it, required, next);
      changed := changed || more;
      todo := todo - {it};
    }
    assert todo + next == next;
  }

  /** The worklist loop: the result is the smallest closed set. */
  method FindRequiredExternal(n: nat, es: seq<Externals>) returns (required: set<nat>)
    requires n <= |es|
    ensures Least(n, Files(es), required)
  {
    hide Needs;
    ghost var fs := Files(es);
    required := {};
    var pending: seq<set<nat>> := [{}, {}];
    var cur := 0;
    for i := |es| downto n
      invariant |pending| == 2 && pending[1] == {}
      invariant forall x {:trigger x in pending[0]} :: x in pending[0] <==> i <= x < |es|
    {
      pending := pending[0 := pending[0] + {i}];
    }
    var changed := true;
    while changed
      invariant 0 <= cur < 2 && |pending| == 2 && pending[1 - cur] == {}
      invariant forall y :: y in required ==> y < n
      invariant forall x :: x in pending[cur] ==> Internal(n, fs, x) || x in required
      invariant LookedAt(n, fs, required, pending[cur])
      invariant BelowAllClosed(n, fs, required)
      invariant !changed ==> pending[cur] == {}
      decreases n - |required|, changed
    {
      hide LookedAt, BelowAllClosed;
      ghost var before := required;
      var next;
      required, next, changed := Round(n, es, required, pending[cur]);
      pending := pending[cur := {}][1 - cur := next];
      cur := 1 - cur;
      Grew(before, next, required, n);
    }
  }

  lemma NeededAreExternal(n: nat, fs: seq<File>, x: nat)
    ensures forall y :: y in NeededBy(n, fs, x) ==> y < n
  {
  }

  lemma Grew(before: set<nat>, next: set<nat>, required: set<nat>, n: nat)
    requires required == before + next && before !! next && forall y :: y in required ==> y < n
    ensures |required| == |before| + |next| <= n
  {
    SmallSet(required, n);
  }

  // -------------------------------------------------------------- reachability

  ghost predicate Linked(fs: seq<File>, p: seq<nat>, k: nat)
    requires 0 < k < |p|
  {
    Needs(fs, p[k - 1], p[k])
  }

  /** A chain of dependences from an internal file over external ones. */
  ghost predicate Chain(n: nat, fs: seq<File>, p: seq<nat>) {
    && |p| > 0 && Internal(n, fs, p[0])
    && forall k {:trigger Linked(fs, p, k)} :: 0 < k < |p| ==> p[k] < n && Linked(fs, p, k)
  }

  ghost predicate Reachable(n: nat, fs: seq<File>, y: nat) {
    exists p :: Chain(n, fs, p) && |p| > 1 && p[|p| - 1] == y
  }

  lemma {:induction false} ChainStaysInside(n: nat, fs: seq<File>, r: set<nat>, p: seq<nat>)
    requires Closed(n, fs, r) && Chain(n, fs, p) && |p| > 1
    ensures p[|p| - 1] in r
    decreases |p|
  {
    var q := p[..|p| - 1];
    assert Linked(fs, p, |p| - 1);
    if |q| > 1 {
      forall k | 0 < k < |q|
        ensures q[k] < n && Linked(fs, q, k)
      {
        assert Linked(fs, p, k);
      }
      ChainStaysInside(n, fs, r, q);
    }
  }

  lemma ChainGrows(n: nat, fs: seq<File>, p: seq<nat>, y: nat)
    requires Chain(n, fs, p) && y < n && Needs(fs, p[|p| - 1], y)
    ensures Chain(n, fs, p + [y])
  {
    var q := p + [y];
    forall k | 0 < k < |q|
      ensures q[k] < n && Linked(fs, q, k)
    {
      if k < |p| {
        assert Linked(fs, p, k);
      }
    }
  }

  /** An external file is required exactly when a chain of dependences from an internal one ends in it. */
  lemma RequiredIffReachable(n: nat, fs: seq<File>, r: set<nat>, y: nat)
    requires Least(n, fs, r)
    ensures y in r <==> Reachable(n, fs, y)
  {
    var c := set z: nat | z < n && Reachable(n, fs, z);
    forall x: nat, z: nat | (Internal(n, fs, x) || x in c) && z < n && Needs(fs, x, z)
      ensures z in c
    {
      var p :| Chain(n, fs, p) && p[|p| - 1] == x by {
        if Internal(n, fs, x) {
          assert Chain(n, fs, [x]);
        }
      }
      ChainGrows(n, fs, p, z);
    }
    assert Closed(n, fs, c);
    if Reachable(n, fs, y) {
      var p :| Chain(n, fs, p) && |p| > 1 && p[|p| - 1] == y;
      ChainStaysInside(n, fs, r, p);
    }
  }

  // ------------------------------------------------------ by the bytes

  /** A symbol of external storage class; its section number decides whether the file defines it. */
  ghost predicate Names(o: Obj, s: Name, inSection: bool)
    requires WellFormed(o.records) && SymbolsOf(o).Some?
  {
    exists x :: x in SymbolsOf(o).value && x.name == s && |x.rest| == 10 && x.rest[8] == 2
      && (inSection <==> x.rest[4] != 0 || x.rest[5] != 0)
  }

  lemma SectionNumber(x: Symbol)
    requires |x.rest| == 10
    ensures Value(x.rest[4..6]) == 0 <==> x.rest[4] == 0 && x.rest[5] == 0
  {
    var bs := x.rest[4..6];
    ValueIsZero(bs);
    assert bs[0] == x.rest[4] && bs[1] == x.rest[5];
  }

  /** A file defines the external names with a section and needs the others. */
  lemma DefinedIff(o: Obj, s: Name)
    requires WellFormed(o.records) && SymbolsOf(o).Some?
    ensures FileOf(o).Some?
    ensures s in FileOf(o).value.defined <==> Names(o, s, true)
    ensures s in FileOf(o).value.undefined <==> Names(o, s, false)
  {
    hide Symbols, WellFormed, ExternalNames, Value;
    ExternalNamesOfSymbols(o.strings, o.records);
    var ss := SymbolsOf(o).value;
    forall x | x in ss && |x.rest| == 10
      ensures Value(x.rest[4..6]) == 0 <==> x.rest[4] == 0 && x.rest[5] == 0
    {
      SectionNumber(x);
    }
  }
}
