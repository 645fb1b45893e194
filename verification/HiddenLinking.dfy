/** Hiding symbols in the kept files preserves linking between them. */
module HiddenLinking {
  import opened Memory
  import opened CStrings
  import opened NameSets
  import opened SymbolHider
  import opened Linking

  // -------------------------------------------------------- renaming of names

  function RenameName(h: set<Name>, s: Name): Name {
    if s in h then PREFIX + s else s
  }

  /** What linking sees of a file after hiding. */
  function Hidden(h: set<Name>, f: File): File {
    File(set s | s in f.defined :: RenameName(h, s), set s | s in f.undefined :: RenameName(h, s))
  }

  /** A hidden name and a name that is not hidden but looks like its replacement. */
  predicate Collide(h: set<Name>, a: Name, b: Name) {
    || (a in h && b !in h && b == PREFIX + a)
    || (b in h && a !in h && a == PREFIX + b)
  }

  lemma SameAfterRenaming(h: set<Name>, a: Name, b: Name)
    ensures RenameName(h, a) == RenameName(h, b) <==> a == b || Collide(h, a, b)
  {
    assert (PREFIX + a)[|PREFIX|..] == a && (PREFIX + b)[|PREFIX|..] == b;
  }

  /** A name that x needs collides with one that y defines. */
  ghost predicate Collision(h: set<Name>, x: File, y: File) {
    exists a, b :: a in x.undefined && b in y.defined && Collide(h, a, b)
  }

  /** After hiding, x depends on y exactly when it did before or when two names collide. */
  lemma DependsAfterHiding(h: set<Name>, x: File, y: File)
    ensures DependsOn(Hidden(h, x), Hidden(h, y)) <==> DependsOn(x, y) || Collision(h, x, y)
  {
    hide RenameName, Collide;
    if DependsOn(Hidden(h, x), Hidden(h, y)) {
      var s :| s in Hidden(h, x).undefined && s in Hidden(h, y).defined;
      var a :| a in x.undefined && s == RenameName(h, a);
      var b :| b in y.defined && s == RenameName(h, b);
      SameAfterRenaming(h, a, b);
    }
    if DependsOn(x, y) {
      var s :| s in x.undefined && s in y.defined;
      assert RenameName(h, s) in Hidden(h, x).undefined && RenameName(h, s) in Hidden(h, y).defined;
    }
    if Collision(h, x, y) {
      var a, b :| a in x.undefined && b in y.defined && Collide(h, a, b);
      SameAfterRenaming(h, a, b);
      assert RenameName(h, a) in Hidden(h, x).undefined && RenameName(h, b) in Hidden(h, y).defined;
    }
  }

  /** Nothing collides unless a name already starts with the prefix. */
  lemma CollisionNeedsPrefix(h: set<Name>, x: File, y: File)
    requires Collision(h, x, y)
    ensures exists s :: s in x.undefined + y.defined && PREFIX <= s
  {
    var a, b :| a in x.undefined && b in y.defined && Collide(h, a, b);
    var s := if a in h then b else a;
    assert s in x.undefined + y.defined && PREFIX <= s;
  }

  /** A file can come to depend on another by hiding: it needs a name that has the prefix already. */
  lemma PrefixedNameCollides()
    ensures var a: Name := [97];
      var x, y := File({}, {PREFIX + a}), File({a}, {});
      !DependsOn(x, y) && DependsOn(Hidden({a}, x), Hidden({a}, y))
  {
    var a: Name := [97];
    var x, y := File({}, {PREFIX + a}), File({a}, {});
    assert |PREFIX + a| != |a|;
    assert RenameName({a}, PREFIX + a) == RenameName({a}, a) by {
      assert PREFIX + a != a;
    }
    assert Collide({a}, PREFIX + a, a);
    DependsAfterHiding({a}, x, y);
  }

  /** A hidden name remains visible in a file only as the replacement of another. */
  lemma HiddenNamesAreGone(h: set<Name>, f: File, s: Name)
    requires s in h
    ensures s in Hidden(h, f).defined <==>
      exists t :: t in f.defined && t in h && s == PREFIX + t
    ensures s in Hidden(h, f).undefined <==>
      exists t :: t in f.undefined && t in h && s == PREFIX + t
  {
  }

  // -------------------------------------------- from symbol tables to the names

  ghost function Renames(hidden: NameSet, f: File): File { Hidden(Elements(hidden), f) }

  lemma NewNameOfExternal(hidden: NameSet, s: Symbol)
    ensures s.External() ==> NewName(hidden, s) == RenameName(Elements(hidden), s.name)
  {
  }

  lemma VisibleAfterRenaming(hidden: NameSet, ss: seq<Symbol>)
    ensures Visible(Renamed(hidden, ss)) == Renames(hidden, Visible(ss))
  {
    hide Renamed, NewName, RenameName, Value, Elements;
    var r, h := Renamed(hidden, ss), Elements(hidden);
    forall i | 0 <= i < |ss|
      ensures r[i].Defined() <==> ss[i].Defined()
      ensures r[i].Undefined() <==> ss[i].Undefined()
      ensures ss[i].External() ==> r[i].name == RenameName(h, ss[i].name)
      ensures ss[i] in ss && r[i] in r
    {
      NewNameOfExternal(hidden, ss[i]);
    }
    forall n
      ensures n in Visible(r).defined <==> n in Renames(hidden, Visible(ss)).defined
      ensures n in Visible(r).undefined <==> n in Renames(hidden, Visible(ss)).undefined
    {
      DefinedAfterRenaming(h, ss, r, n);
    }
  }

  lemma DefinedAfterRenaming(h: set<Name>, ss: seq<Symbol>, r: seq<Symbol>, n: Name)
    requires |r| == |ss|
    requires forall i :: 0 <= i < |ss| ==>
      && (r[i].Defined() <==> ss[i].Defined()) && (r[i].Undefined() <==> ss[i].Undefined())
      && (ss[i].External() ==> r[i].name == RenameName(h, ss[i].name))
    ensures n in Visible(r).defined <==> n in Hidden(h, Visible(ss)).defined
    ensures n in Visible(r).undefined <==> n in Hidden(h, Visible(ss)).undefined
  {
    hide RenameName, Value;
    if n in Visible(r).defined {
      var i :| 0 <= i < |r| && r[i].Defined() && r[i].name == n;
      assert ss[i].name in Visible(ss).defined;
    }
    if n in Visible(r).undefined {
      var i :| 0 <= i < |r| && r[i].Undefined() && r[i].name == n;
      assert ss[i].name in Visible(ss).undefined;
    }
    if n in Hidden(h, Visible(ss)).defined {
      var i :| 0 <= i < |ss| && ss[i].Defined() && RenameName(h, ss[i].name) == n;
      assert r[i] in r;
    }
    if n in Hidden(h, Visible(ss)).undefined {
      var i :| 0 <= i < |ss| && ss[i].Undefined() && RenameName(h, ss[i].name) == n;
      assert r[i] in r;
    }
  }

  // ------------------------------------------------------------ the whole run

  ghost predicate AllWellFormed(objs: seq<Obj>) {
    forall i :: 0 <= i < |objs| ==> WellFormed(objs[i].records)
  }

  ghost predicate Readable(objs: seq<Obj>)
    requires AllWellFormed(objs)
  {
    forall i :: 0 <= i < |objs| ==> FileOf(objs[i]).Some?
  }

  /** What linking sees of the files given. */
  ghost function FilesOf(objs: seq<Obj>): (fs: seq<File>)
    requires AllWellFormed(objs) && Readable(objs)
    ensures |fs| == |objs| && forall i :: 0 <= i < |objs| ==> FileOf(objs[i]) == Some(fs[i])
  {
    seq(|objs|, i requires 0 <= i < |objs| => FileOf(objs[i]).value)
  }

  ghost predicate Kept(n: nat, fs: seq<File>, required: set<nat>, x: nat) {
    Internal(n, fs, x) || x in required
  }

  /** The names that required files define. */
  ghost predicate DefinedByRequired(fs: seq<File>, required: set<nat>, hidden: NameSet) {
    forall s :: s in hidden <==> exists y :: y in required && y < |fs| && s in fs[y].defined
  }

  /** What a run leaves behind: each kept file in its hidden version, nothing else. */
  ghost predicate Extracted(
    n: nat, objs: seq<Obj>, required: set<nat>, hidden: NameSet, out: map<nat, Obj>
  ) {
    && n <= |objs| && AllWellFormed(objs) && Readable(objs)
    && Least(n, FilesOf(objs), required)
    && DefinedByRequired(FilesOf(objs), required, hidden)
    && (forall x :: x in out <==> Kept(n, FilesOf(objs), required, x))
    && (forall x :: x in out ==> x < |objs| && HiddenVersion(objs[x], hidden, out[x]))
  }

  /** No kept file depends on a removed one. */
  lemma NoKeptFileNeedsARemovedOne(n: nat, fs: seq<File>, required: set<nat>, x: nat, y: nat)
    requires n <= |fs| && Least(n, fs, required)
    requires Kept(n, fs, required, x) && y < |fs| && !Kept(n, fs, required, y)
    ensures x < |fs| && !DependsOn(fs[x], fs[y])
  {
    assert !Needs(fs, x, y);
  }

  /** The names of o can all be written: those read back are those renamed. */
  ghost predicate Faithful(o: Obj, hidden: NameSet, o': Obj) {
    && WellFormed(o.records) && SymbolsOf(o).Some?
    && (Named(hidden, SymbolsOf(o).value) || |o'.strings| % 256 == 0)
  }

  lemma FileOfHiddenVersion(o: Obj, hidden: NameSet, o': Obj)
    requires HiddenVersion(o, hidden, o') && Faithful(o, hidden, o')
    ensures FileOf(o).Some? && FileOf(o') == Some(Renames(hidden, FileOf(o).value))
  {
    hide WellFormed, Symbols, ExternalNames, Renamed, Visible, Hidden;
    ExternalNamesOfSymbols(o.strings, o.records);
    ExternalNamesOfSymbols(o'.strings, o'.records);
    VisibleAfterRenaming(hidden, SymbolsOf(o).value);
  }

  /** Between kept files, dependence after the run is dependence before it, but for collisions. */
  lemma KeptFilesStillLink(
    n: nat, objs: seq<Obj>, required: set<nat>, hidden: NameSet, out: map<nat, Obj>, x: nat, y: nat
  )
    requires Extracted(n, objs, required, hidden, out)
    requires x in out && y in out
    requires Faithful(objs[x], hidden, out[x]) && Faithful(objs[y], hidden, out[y])
    ensures WellFormed(out[x].records) && WellFormed(out[y].records)
    ensures FileOf(out[x]).Some? && FileOf(out[y]).Some?
    ensures var fs := FilesOf(objs);
      DependsOn(FileOf(out[x]).value, FileOf(out[y]).value)
      <==> DependsOn(fs[x], fs[y]) || Collision(Elements(hidden), fs[x], fs[y])
  {
    hide WellFormed, DependsOn, Hidden, Collision, FileOf;
    var fs := FilesOf(objs);
    FileOfHiddenVersion(objs[x], hidden, out[x]);
    FileOfHiddenVersion(objs[y], hidden, out[y]);
    DependsAfterHiding(Elements(hidden), fs[x], fs[y]);
  }

  /** x needs a name whose replacement y defines. */
  ghost predicate NeedsReplacement(h: set<Name>, x: File, y: File) {
    exists a :: a in x.undefined && a in h && PREFIX + a in y.defined
  }

  /** Once hidden, a kept file depends on a removed one exactly when that defines one of its replacements. */
  lemma HiddenFileNeedsARemovedOne(n: nat, fs: seq<File>, required: set<nat>, h: set<Name>, x: nat, y: nat)
    requires n <= |fs| && Least(n, fs, required)
    requires Kept(n, fs, required, x) && y < |fs| && !Kept(n, fs, required, y)
    ensures x < |fs|
    ensures DependsOn(Hidden(h, fs[x]), fs[y]) <==> NeedsReplacement(h, fs[x], fs[y])
  {
    hide Least;
    NoKeptFileNeedsARemovedOne(n, fs, required, x, y);
    if DependsOn(Hidden(h, fs[x]), fs[y]) {
      var s :| s in Hidden(h, fs[x]).undefined && s in fs[y].defined;
      var a :| a in fs[x].undefined && s == RenameName(h, a);
      assert a in h;
    }
    if NeedsReplacement(h, fs[x], fs[y]) {
      var a :| a in fs[x].undefined && a in h && PREFIX + a in fs[y].defined;
      assert RenameName(h, a) in Hidden(h, fs[x]).undefined;
    }
  }

  /** The same of the files a run leaves behind: they need no removed file, but for replacements. */
  lemma KeptFilesStandAlone(
    n: nat, objs: seq<Obj>, required: set<nat>, hidden: NameSet, out: map<nat, Obj>, x: nat, y: nat
  )
    requires Extracted(n, objs, required, hidden, out)
    requires x in out && y < |objs| && y !in out && Faithful(objs[x], hidden, out[x])
    ensures WellFormed(out[x].records) && FileOf(out[x]).Some?
    ensures var fs := FilesOf(objs);
      DependsOn(FileOf(out[x]).value, fs[y]) <==> NeedsReplacement(Elements(hidden), fs[x], fs[y])
  {
    hide WellFormed, DependsOn, Hidden, NeedsReplacement, FileOf, Least;
    var fs := FilesOf(objs);
    FileOfHiddenVersion(objs[x], hidden, out[x]);
    HiddenFileNeedsARemovedOne(n, fs, required, Elements(hidden), x, y);
  }

  /** The set of symbols to hide. */
  method CollectHidden(es: seq<Externals>, required: set<nat>) returns (hidden: NameSet)
    requires forall y :: y in required ==> y < |es|
    ensures DefinedByRequired(Files(es), required, hidden)
  {
    hide Sorted, Insert;
    assert Sorted([]) by { EmptyIsSorted(); }
    hidden := [];
    var todo := required;
    while todo != {}
      invariant todo <= required
      invariant forall s :: s in hidden <==> exists y :: y in required - todo && s in es[y].defined
    {
      var idx :| idx in todo;
      ghost var was := hidden;
      for k := 0 to |es[idx].defined|
        invariant forall s :: s in hidden <==> s in was || s in es[idx].defined[..k]
      {
        InsertAdds(hidden, es[idx].defined[k]);
        hidden := Insert(hidden, es[idx].defined[k]);
      }
      assert es[idx].defined[..|es[idx].defined|] == es[idx].defined;
      forall s
        ensures s in hidden <==> exists y :: y in required - (todo - {idx}) && s in es[y].defined
      {
        if s in es[idx].defined {
          assert idx in required - (todo - {idx});
        }
      }
      todo := todo - {idx};
    }
  }

  /** Reads the external names of all files; None where the source stops. */
  method ReadAll(objs: seq<Obj>) returns (r: Option<seq<Externals>>)
    requires AllWellFormed(objs)
    ensures r.Some? <==> Readable(objs)
    ensures r.Some? ==> Files(r.value) == FilesOf(objs)
  {
    hide FileOf, WellFormed;
    var es: seq<Externals> := [];
    for i := 0 to |objs|
      invariant |es| == i
      invariant forall k :: 0 <= k < i ==> FileOf(objs[k]) == Some(es[k].Sets())
    {
      var e := ComputeExternalSymbols(objs[i]);
      if e.None? {
        return None;
      }
      es := es + [e.value];
    }
    return Some(es);
  }

  /** The whole program on n external files and the internal ones behind them. */
  method ExtractExternal(n: nat, objs: seq<Obj>)
    returns (out: Option<map<nat, Obj>>, required: set<nat>, hidden: NameSet)
    requires 0 < n <= |objs| && AllWellFormed(objs)
    ensures out.Some? ==> Extracted(n, objs, required, hidden, out.value)
    ensures out.None? ==> !Readable(objs) || exists x: nat ::
      Kept(n, FilesOf(objs), required, x) && x < |objs| && Stops(objs[x], hidden)
  {
    hide WellFormed, HiddenVersion, FileOf, Sorted, Least, Readable, Stops, DefinedByRequired;
    out, required := None, {};
    assert Sorted([]) by { EmptyIsSorted(); }
    hidden := [];
    var es := ReadAll(objs);
    if es.None? {
      return;
    }
    ghost var fs := FilesOf(objs);
    required := FindRequiredExternal(n, es.value);
    assert forall y :: y in required ==> y < n by { LeastIsExternal(n, fs, required); }
    hidden := CollectHidden(es.value, required);
    var files: map<nat, Obj> := map[];
    for i := 0 to |objs|
      invariant forall x: nat :: x in files <==> x < i && Kept(n, fs, required, x)
      invariant forall x :: x in files ==> HiddenVersion(objs[x], hidden, files[x])
    {
      if i >= n || i in required {
        var o := HideSymbols(objs[i], hidden);
        if o.None? {
          assert Kept(n, fs, required, i);
          return;
        }
        files := files[i := o.value];
      }
    }
    out := Some(files);
  }

  lemma LeastIsExternal(n: nat, fs: seq<File>, required: set<nat>)
    requires Least(n, fs, required)
    ensures forall y :: y in required ==> y < n
  {
  }
}
