/** The merge of the host's and the target's sorted variable tables. */
module VarMerge {
  import opened CStrings
  import opened NameSets
  import opened VarTable

  datatype HostVar = HostVar(name: Name, addr: int, size: nat)

  /** Sorted by name, every name once. */
  ghost predicate HostSorted(hs: seq<HostVar>) {
    forall i, j :: 0 <= i < j < |hs| ==> Less(hs[i].name, hs[j].name)
  }

  ghost predicate TargetSorted(ts: seq<Var>) {
    forall i, j :: 0 <= i < j < |ts| ==> Less(ts[i].name, ts[j].name)
  }

  /** The pairs with equal names among the first i and the first j variables. */
  ghost predicate Paired(hs: seq<HostVar>, ts: seq<Var>, i: nat, j: nat, matched: seq<(HostVar, Var)>) {
    && i <= |hs| && j <= |ts|
    && (forall m :: m in matched ==> m.0 in hs[..i] && m.1 in ts[..j] && m.0.name == m.1.name)
    && (forall h, t {:trigger (h, t) in matched} ::
          h in hs && t in ts && h.name == t.name && (h in hs[..i] || t in ts[..j]) ==> (h, t) in matched)
  }

  /** All names of ts from j on are greater, so hs[i] has no partner left. */
  lemma NoPartner(hs: seq<HostVar>, ts: seq<Var>, i: nat, j: nat)
    requires TargetSorted(ts) && i < |hs| && j < |ts| && Less(hs[i].name, ts[j].name)
    ensures forall t :: t in ts && t.name == hs[i].name ==> t in ts[..j]
  {
    hide Less;
    forall t | t in ts && t.name == hs[i].name
      ensures t in ts[..j]
    {
      var k :| 0 <= k < |ts| && ts[k] == t;
      LessIsIrreflexive(t.name);
      if k > j {
        LessIsTransitive(hs[i].name, ts[j].name, ts[k].name);
      }
      assert ts[..j][k] == t;
    }
  }

  lemma NoHostPartner(hs: seq<HostVar>, ts: seq<Var>, i: nat, j: nat)
    requires HostSorted(hs) && i < |hs| && j < |ts| && Less(ts[j].name, hs[i].name)
    ensures forall h :: h in hs && h.name == ts[j].name ==> h in hs[..i]
  {
    hide Less;
    forall h | h in hs && h.name == ts[j].name
      ensures h in hs[..i]
    {
      var k :| 0 <= k < |hs| && hs[k] == h;
      LessIsIrreflexive(h.name);
      if k > i {
        LessIsTransitive(ts[j].name, hs[i].name, hs[k].name);
      }
      assert hs[..i][k] == h;
    }
  }

  lemma NamesAreUnique(hs: seq<HostVar>, ts: seq<Var>)
    requires HostSorted(hs) && TargetSorted(ts)
    ensures forall i, j :: 0 <= i < |hs| && 0 <= j < |hs| && hs[i].name == hs[j].name ==> i == j
    ensures forall i, j :: 0 <= i < |ts| && 0 <= j < |ts| && ts[i].name == ts[j].name ==> i == j
  {
    hide Less;
    forall i, j | 0 <= i < j < |hs|
      ensures hs[i].name != hs[j].name
    {
      LessIsIrreflexive(hs[i].name);
    }
    forall i, j | 0 <= i < j < |ts|
      ensures ts[i].name != ts[j].name
    {
      LessIsIrreflexive(ts[i].name);
    }
  }

  lemma SkipHost(hs: seq<HostVar>, ts: seq<Var>, i: nat, j: nat, matched: seq<(HostVar, Var)>)
    requires TargetSorted(ts) && i < |hs| && j < |ts| && Less(hs[i].name, ts[j].name)
    requires Paired(hs, ts, i, j, matched)
    ensures Paired(hs, ts, i + 1, j, matched)
  {
    hide Less, TargetSorted;
    NoPartner(hs, ts, i, j);
    assert hs[..i + 1] == hs[..i] + [hs[i]];
  }

  lemma SkipTarget(hs: seq<HostVar>, ts: seq<Var>, i: nat, j: nat, matched: seq<(HostVar, Var)>)
    requires HostSorted(hs) && i < |hs| && j < |ts| && Less(ts[j].name, hs[i].name)
    requires Paired(hs, ts, i, j, matched)
    ensures Paired(hs, ts, i, j + 1, matched)
  {
    hide Less, HostSorted;
    NoHostPartner(hs, ts, i, j);
    assert ts[..j + 1] == ts[..j] + [ts[j]];
  }

  lemma Pair(hs: seq<HostVar>, ts: seq<Var>, i: nat, j: nat, matched: seq<(HostVar, Var)>)
    requires HostSorted(hs) && TargetSorted(ts) && i < |hs| && j < |ts| && hs[i].name == ts[j].name
    requires Paired(hs, ts, i, j, matched)
    ensures Paired(hs, ts, i + 1, j + 1, matched + [(hs[i], ts[j])])
  {
    hide Less, HostSorted, TargetSorted;
    NamesAreUnique(hs, ts);
    assert hs[..i + 1] == hs[..i] + [hs[i]] && ts[..j + 1] == ts[..j] + [ts[j]];
    var matched' := matched + [(hs[i], ts[j])];
    forall h, t | h in hs && t in ts && h.name == t.name && (h in hs[..i + 1] || t in ts[..j + 1])
      ensures (h, t) in matched'
    {
      if h in hs[..i] || t in ts[..j] {
        assert (h, t) in matched;
      }
    }
  }

  /** The matched pairs are exactly the names present in both tables, each once, in order. */
  method MergeTables(hs: seq<HostVar>, ts: seq<Var>) returns (matched: seq<(HostVar, Var)>)
    requires HostSorted(hs) && TargetSorted(ts)
    ensures forall h, t :: (h, t) in matched <==> h in hs && t in ts && h.name == t.name
    ensures forall a, b :: 0 <= a < b < |matched| ==> Less(matched[a].0.name, matched[b].0.name)
  {
    hide Less, HostSorted, TargetSorted, Paired;
    var hi, ti := 0, 0;
    matched := [];
    NothingPaired(hs, ts);
    while hi < |hs| && ti < |ts|
      invariant 0 <= hi <= |hs| && 0 <= ti <= |ts| && Paired(hs, ts, hi, ti, matched)
      invariant InOrder(hs, hi, matched)
      decreases |hs| - hi + |ts| - ti
    {
      LessIsTotal(hs[hi].name, ts[ti].name);
      if hs[hi].name == ts[ti].name {
        Pair(hs, ts, hi, ti, matched);
        StaysInOrder(hs, hi, matched, ts[ti]);
        matched := matched + [(hs[hi], ts[ti])];
        hi, ti := hi + 1, ti + 1;
      } else if Less(hs[hi].name, ts[ti].name) {
        SkipHost(hs, ts, hi, ti, matched);
        hi := hi + 1;
      } else {
        SkipTarget(hs, ts, hi, ti, matched);
        ti := ti + 1;
      }
    }
    AllPaired(hs, ts, hi, ti, matched);
  }

  lemma NothingPaired(hs: seq<HostVar>, ts: seq<Var>)
    ensures Paired(hs, ts, 0, 0, [])
  {
  }

  lemma AllPaired(hs: seq<HostVar>, ts: seq<Var>, i: nat, j: nat, matched: seq<(HostVar, Var)>)
    requires Paired(hs, ts, i, j, matched) && (i == |hs| || j == |ts|)
    ensures forall h, t :: (h, t) in matched <==> h in hs && t in ts && h.name == t.name
  {
    assert i == |hs| ==> hs[..i] == hs;
    assert j == |ts| ==> ts[..j] == ts;
  }

  /** The pairs ascend by name and come from the first i host variables. */
  ghost predicate InOrder(hs: seq<HostVar>, i: nat, matched: seq<(HostVar, Var)>) {
    && i <= |hs|
    && (forall a :: 0 <= a < |matched| ==> matched[a].0 in hs[..i])
    && (forall a, b :: 0 <= a < b < |matched| ==> Less(matched[a].0.name, matched[b].0.name))
  }

  lemma StaysInOrder(hs: seq<HostVar>, i: nat, matched: seq<(HostVar, Var)>, t: Var)
    requires HostSorted(hs) && i < |hs| && InOrder(hs, i, matched)
    ensures InOrder(hs, i + 1, matched + [(hs[i], t)])
  {
    hide Less;
    assert hs[..i + 1] == hs[..i] + [hs[i]];
    forall a | 0 <= a < |matched|
      ensures Less(matched[a].0.name, hs[i].name)
    {
      var k :| 0 <= k < i && hs[..i][k] == matched[a].0;
      assert hs[k] == matched[a].0;
    }
  }
}
