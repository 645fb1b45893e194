/** Every combined entry covers its members, and its members are exactly those chained by shared bases. */
module GroupCover {
  import opened Memory
  import opened Grouping

  /** No earlier entry is in the same group. */
  ghost predicate IsFirst(memberOf: seq<int>, k: nat)
    requires k < |memberOf|
  {
    forall l {:trigger memberOf[l]} :: 0 <= l < k ==> memberOf[l] != memberOf[k]
  }

  /**
   * What entry k brings into its group: its own range, or for a pointer mapped with its pointee
   * the pointer slot; such an entry brings the range of its size at its base if it opens a group.
   */
  ghost function Part(olds: seq<Old>, k: nat): Found
    requires k < |olds|
  {
    var a := olds[k];
    if !a.ty.mapPtr then Found(a.begin, a.begin + a.size)
    else if IsRoot(olds, k) then Found(a.base, a.base + a.size)
    else Found(a.base, a.base + PTR_SIZE)
  }

  ghost predicate Covers(g: Group, f: Found) {
    g.begin <= f.begin && f.end <= g.end
  }

  /** Entry k opened the group. */
  ghost predicate Opened(olds: seq<Old>, st: Grouped, id: int, k: nat) {
    k < |olds| && k < |st.memberOf| && 0 <= id < |st.groups| && st.memberOf[k] == id && IsRoot(olds, k)
    && st.groups[id].base == olds[k].base
  }

  ghost predicate HasOpener(olds: seq<Old>, st: Grouped, id: int) {
    exists k: nat :: Opened(olds, st, id, k)
  }

  /** Members of a group: chained by Joins to the one that opened it. */
  ghost predicate Chained(olds: seq<Old>, st: Grouped, n: nat)
    requires n <= |olds| && Shaped(st, n)
  {
    forall i: nat, j: nat {:trigger Joins(olds, i, j)} ::
      Joins(olds, i, j) && i < n ==> st.memberOf[i] == st.memberOf[j] != NO_GROUP
  }

  ghost predicate MemberCovered(olds: seq<Old>, st: Grouped, k: nat)
    requires k < |st.memberOf| <= |olds| && Shaped(st, |st.memberOf|)
  {
    st.memberOf[k] != NO_GROUP ==>
      && (IsRoot(olds, k) <==> IsFirst(st.memberOf, k))
      && Covers(st.groups[st.memberOf[k]], Part(olds, k))
  }

  ghost predicate Partition(olds: seq<Old>, st: Grouped, n: nat) {
    && n <= |olds| && Shaped(st, n)
    && Chained(olds, st, n)
    && (forall k :: 0 <= k < n ==> MemberCovered(olds, st, k))
    && (forall id :: 0 <= id < |st.groups| ==> HasOpener(olds, st, id))
  }

  lemma OneJoined(olds: seq<Old>, i: nat, j: nat, k: nat)
    requires Joins(olds, i, j) && Joins(olds, i, k)
    ensures j == k
  {
  }

  lemma RootJoinsNone(olds: seq<Old>, i: nat, j: nat)
    requires Joins(olds, i, j)
    ensures !IsRoot(olds, i)
  {
    assert Shared(olds, i, j).begin != 0;
  }

  /** An entry outside of all groups joined none. */
  lemma UngroupedIsRoot(olds: seq<Old>, st: Grouped, n: nat, k: nat)
    requires Partition(olds, st, n) && k < n && st.memberOf[k] == NO_GROUP
    ensures IsRoot(olds, k)
  {
    if j: nat :| j < k && Shared(olds, k, j).begin != 0 {
      var t := FirstShared(olds, k, j);
    }
  }

  /** The effect of joining, entry by entry and group by group. */
  lemma JoinEffect(olds: seq<Old>, st: Grouped, i: nat, t: nat, f: Found)
    requires t < i < |olds| && Shaped(st, i + 1) && st.memberOf[i] == NO_GROUP
    ensures var r := Join(olds, st, i, t, f);
      var isNew := st.memberOf[t] == NO_GROUP;
      var id := if isNew then |st.groups| else st.memberOf[t];
      && r.memberOf[i] == id && r.memberOf[t] == id
      && (forall k :: 0 <= k <= i && k != i && k != t ==> r.memberOf[k] == st.memberOf[k])
      && |r.groups| == |st.groups| + (if isNew then 1 else 0)
      && (forall g :: 0 <= g < |st.groups| && g != id ==> r.groups[g] == st.groups[g])
      && Covers(r.groups[id], f)
      && (if isNew then
            var g := NewGroup(olds[t]);
            r.groups[id].base == g.base && Covers(r.groups[id], Found(g.begin, g.end))
          else
            var g := st.groups[id];
            r.groups[id].base == g.base && Covers(r.groups[id], Found(g.begin, g.end)))
  {
  }

  /** A group never shrinks and keeps its base and its number. */
  ghost predicate Extends(st: Grouped, r: Grouped, n: nat)
    requires Shaped(st, n) && Shaped(r, n + 1)
  {
    && |st.groups| <= |r.groups|
    && (forall g :: 0 <= g < |st.groups| ==>
          && r.groups[g].base == st.groups[g].base
          && r.groups[g].begin <= st.groups[g].begin && st.groups[g].end <= r.groups[g].end)
    && (forall k :: 0 <= k < n && st.memberOf[k] != NO_GROUP ==> r.memberOf[k] == st.memberOf[k])
  }

  /** The state after entry i joined entry t. */
  ghost predicate Joined(olds: seq<Old>, st: Grouped, i: nat, t: nat, r: Grouped) {
    && i < |olds| && Partition(olds, st, i) && Joins(olds, i, t) && Shaped(r, i + 1)
    && var j := Join(olds, Start(st, olds[i].ty), i, t, Shared(olds, i, t));
       r.memberOf == j.memberOf && r.groups == j.groups
  }

  lemma JoinedEffect(olds: seq<Old>, st: Grouped, i: nat, t: nat, r: Grouped)
    requires Joined(olds, st, i, t, r)
    ensures Extends(st, r, i)
    ensures var isNew := st.memberOf[t] == NO_GROUP;
      var id := if isNew then |st.groups| else st.memberOf[t];
      && r.memberOf[i] == id && r.memberOf[t] == id
      && (forall k :: 0 <= k < i && k != t ==> r.memberOf[k] == st.memberOf[k])
      && |r.groups| == |st.groups| + (if isNew then 1 else 0)
      && Covers(r.groups[id], Shared(olds, i, t))
      && (isNew ==> (r.groups[id].base == olds[t].base
           && Covers(r.groups[id], Found(NewGroup(olds[t]).begin, NewGroup(olds[t]).end))))
  {
    hide Join, Shared, Partition;
    var st0 := Start(st, olds[i].ty);
    assert Shaped(st, i) by { PartitionIsShaped(olds, st, i); }
    JoinEffect(olds, st0, i, t, Shared(olds, i, t));
  }

  lemma PartitionIsShaped(olds: seq<Old>, st: Grouped, n: nat)
    requires Partition(olds, st, n)
    ensures Shaped(st, n)
  {
  }

  lemma JoinKeepsChains(olds: seq<Old>, st: Grouped, i: nat, t: nat, r: Grouped)
    requires Joined(olds, st, i, t, r)
    ensures Chained(olds, r, i + 1)
  {
    hide Join, Shared, IsRoot;
    JoinedEffect(olds, st, i, t, r);
    forall a: nat, b: nat | Joins(olds, a, b) && a < i + 1
      ensures r.memberOf[a] == r.memberOf[b] != NO_GROUP
    {
      if a == i {
        OneJoined(olds, i, t, b);
      }
    }
  }

  lemma JoinKeepsCover(olds: seq<Old>, st: Grouped, i: nat, t: nat, r: Grouped, k: nat)
    requires Joined(olds, st, i, t, r) && k < i + 1
    ensures MemberCovered(olds, r, k)
  {
    hide Join, IsRoot, Chained;
    JoinedEffect(olds, st, i, t, r);
    if k == i {
      RootJoinsNone(olds, i, t);
      assert r.memberOf[t] == r.memberOf[i];
    } else {
      assert MemberCovered(olds, st, k);
      if k == t && st.memberOf[t] == NO_GROUP {
        UngroupedIsRoot(olds, st, i, t);
      }
    }
  }

  lemma JoinKeepsOpeners(olds: seq<Old>, st: Grouped, i: nat, t: nat, r: Grouped, id: int)
    requires Joined(olds, st, i, t, r) && 0 <= id < |r.groups|
    ensures HasOpener(olds, r, id)
  {
    hide Join, Shared, IsRoot, Joins, Chained, MemberCovered;
    JoinedEffect(olds, st, i, t, r);
    assert t < i by { JoinsEarlier(olds, i, t); }
    if id < |st.groups| {
      assert HasOpener(olds, st, id);
      var k: nat :| Opened(olds, st, id, k);
      assert Opened(olds, r, id, k);
    } else {
      UngroupedIsRoot(olds, st, i, t);
      assert Opened(olds, r, id, t);
    }
  }

  lemma JoinsEarlier(olds: seq<Old>, i: nat, t: nat)
    requires Joins(olds, i, t)
    ensures t < i
  {
  }

  /** An entry that joins none stays outside of the groups for now. */
  lemma StayingAlone(olds: seq<Old>, st: Grouped, i: nat, r: Grouped)
    requires i < |olds| && Partition(olds, st, i) && IsRoot(olds, i) && Shaped(r, i + 1)
    requires r.memberOf == st.memberOf + [NO_GROUP] && r.groups == st.groups
    ensures Partition(olds, r, i + 1)
  {
    hide Shared, IsRoot, Passes, Part;
    forall a: nat, b: nat | Joins(olds, a, b) && a < i + 1
      ensures r.memberOf[a] == r.memberOf[b] != NO_GROUP
    {
      if a == i {
        RootJoinsNone(olds, i, b);
      }
    }
    forall k | 0 <= k < i + 1
      ensures MemberCovered(olds, r, k)
    {
      if k < i {
        assert MemberCovered(olds, st, k);
        assert forall l :: 0 <= l <= k ==> r.memberOf[l] == st.memberOf[l];
      }
    }
    forall id | 0 <= id < |r.groups|
      ensures HasOpener(olds, r, id)
    {
      assert HasOpener(olds, st, id);
      var k: nat :| Opened(olds, st, id, k);
      assert Opened(olds, r, id, k);
    }
  }

  /**
   * The groups of translate_map: entries share one exactly along the chains of shared bases, the
   * first member opened it, and its range covers what every member brings.
   */
  lemma {:induction false} GroupsArePartition(olds: seq<Old>, n: nat)
    requires n <= |olds|
    ensures Partition(olds, Groups(olds, n), n)
    decreases n
  {
    if n > 0 {
      hide Scan, Groups, Join, Shared, IsRoot, Joins, Partition;
      var i := n - 1;
      var before := GroupsStep(olds, n);
      GroupsArePartition(olds, i);
      var st := Start(before, olds[i].ty);
      NothingToPass(olds, i);
      ScanJoins(olds, st, i, 0);
      var r := Groups(olds, n);
      if !IsRoot(olds, i) || r.memberOf != st.memberOf || r.groups != st.groups {
        var t :| Joins(olds, i, t)
          && r.memberOf == Join(olds, st, i, t, Shared(olds, i, t)).memberOf
          && r.groups == Join(olds, st, i, t, Shared(olds, i, t)).groups;
        JoinKeepsPartition(olds, before, i, t, r);
      } else {
        StayingAlone(olds, before, i, r);
      }
    }
  }

  lemma JoinKeepsPartition(olds: seq<Old>, st: Grouped, i: nat, t: nat, r: Grouped)
    requires Joined(olds, st, i, t, r)
    ensures Partition(olds, r, i + 1)
  {
    hide Join, Shared, IsRoot, Joins, MemberCovered, Chained, HasOpener;
    JoinKeepsChains(olds, st, i, t, r);
    forall k | 0 <= k < i + 1
      ensures MemberCovered(olds, r, k)
    {
      JoinKeepsCover(olds, st, i, t, r, k);
    }
    forall id | 0 <= id < |r.groups|
      ensures HasOpener(olds, r, id)
    {
      JoinKeepsOpeners(olds, st, i, t, r, id);
    }
  }

  /** Entry i stays alone or joins the first entry it shares a base with. */
  lemma EntryStep(olds: seq<Old>, i: nat) returns (t: int)
    requires i < |olds|
    ensures t == -1 || (0 <= t && Joins(olds, i, t))
    ensures var st, r := Groups(olds, i), Groups(olds, i + 1);
      if t == -1 then IsRoot(olds, i) && r.memberOf == st.memberOf + [NO_GROUP] && r.groups == st.groups
      else Joined(olds, st, i, t, r)
  {
    hide Scan, Groups, Join, Shared, IsRoot, Passes, Partition;
    var before := GroupsStep(olds, i + 1);
    GroupsArePartition(olds, i);
    var st := Start(before, olds[i].ty);
    NothingToPass(olds, i);
    ScanJoins(olds, st, i, 0);
    var r := Groups(olds, i + 1);
    if IsRoot(olds, i) && r.memberOf == st.memberOf && r.groups == st.groups {
      t := -1;
    } else {
      var u: nat :| Joins(olds, i, u)
        && r.memberOf == Join(olds, st, i, u, Shared(olds, i, u)).memberOf
        && r.groups == Join(olds, st, i, u, Shared(olds, i, u)).groups;
      t := u;
    }
  }

  // ------------------------------------------------------- least groups

  /** A member's part begins where the group does, and a member's part ends where the group does. */
  ghost predicate Tight(olds: seq<Old>, st: Grouped, id: int) {
    && 0 <= id < |st.groups| && |st.memberOf| <= |olds|
    && (exists k: nat :: k < |st.memberOf| && st.memberOf[k] == id && Part(olds, k).begin == st.groups[id].begin)
    && (exists k: nat :: k < |st.memberOf| && st.memberOf[k] == id && Part(olds, k).end == st.groups[id].end)
  }

  ghost predicate AllTight(olds: seq<Old>, st: Grouped) {
    forall id :: 0 <= id < |st.groups| ==> Tight(olds, st, id)
  }

  lemma RootPart(olds: seq<Old>, k: nat)
    requires k < |olds| && IsRoot(olds, k)
    ensures Part(olds, k) == Found(NewGroup(olds[k]).begin, NewGroup(olds[k]).end)
  {
  }

  lemma JoinerPart(olds: seq<Old>, i: nat, t: nat)
    requires Joins(olds, i, t)
    ensures Part(olds, i) == Shared(olds, i, t)
  {
    RootJoinsNone(olds, i, t);
  }

  /** How joining widens the group. */
  lemma JoinWidens(olds: seq<Old>, st: Grouped, i: nat, t: nat, r: Grouped)
    requires Joined(olds, st, i, t, r)
    ensures t < i < |olds| && Shaped(st, i)
    ensures var id := r.memberOf[t];
      var was := if st.memberOf[t] == NO_GROUP then NewGroup(olds[t]) else st.groups[id];
      && 0 <= id < |r.groups|
      && (st.memberOf[t] != NO_GROUP ==> id == st.memberOf[t])
      && r.groups[id].begin == Min(was.begin, Shared(olds, i, t).begin)
      && r.groups[id].end == Max(was.end, Shared(olds, i, t).end)
      && (forall g :: 0 <= g < |r.groups| && g != id ==> g < |st.groups| && r.groups[g] == st.groups[g])
  {
    hide Shared, NewGroup, Partition, Joins;
    JoinsEarlier(olds, i, t);
    PartitionIsShaped(olds, st, i);
  }

  lemma OtherStaysTight(olds: seq<Old>, st: Grouped, r: Grouped, id: int)
    requires Tight(olds, st, id) && id < |r.groups| && r.groups[id] == st.groups[id]
    requires |st.memberOf| <= |r.memberOf| <= |olds|
    requires forall k: nat :: k < |st.memberOf| && st.memberOf[k] == id ==> r.memberOf[k] == id
    ensures Tight(olds, r, id)
  {
  }

  lemma JoinKeepsTight(olds: seq<Old>, st: Grouped, i: nat, t: nat, r: Grouped, id: int)
    requires Joined(olds, st, i, t, r) && AllTight(olds, st) && 0 <= id < |r.groups|
    ensures Tight(olds, r, id)
  {
    hide Join, Shared, Partition, Joins, Part, NewGroup, IsRoot;
    JoinsEarlier(olds, i, t);
    PartitionIsShaped(olds, st, i);
    JoinedEffect(olds, st, i, t, r);
    JoinWidens(olds, st, i, t, r);
    JoinerPart(olds, i, t);
    if id != r.memberOf[t] {
      OtherStaysTight(olds, st, r, id);
    } else {
      var f := Shared(olds, i, t);
      var b, e: nat := i, i;
      if st.memberOf[t] == NO_GROUP {
        UngroupedIsRoot(olds, st, i, t);
        RootPart(olds, t);
        b := if f.begin < NewGroup(olds[t]).begin then i else t;
        e := if NewGroup(olds[t]).end < f.end then i else t;
      } else {
        assert Tight(olds, st, id);
        var k: nat :| k < |st.memberOf| && st.memberOf[k] == id && Part(olds, k).begin == st.groups[id].begin;
        var l: nat :| l < |st.memberOf| && st.memberOf[l] == id && Part(olds, l).end == st.groups[id].end;
        b := if f.begin < st.groups[id].begin then i else k;
        e := if st.groups[id].end < f.end then i else l;
      }
      assert r.memberOf[b] == id && Part(olds, b).begin == r.groups[id].begin;
      assert r.memberOf[e] == id && Part(olds, e).end == r.groups[id].end;
    }
  }

  /** Each group's range is the least that covers what its members bring. */
  lemma {:induction false} GroupsAreTight(olds: seq<Old>, n: nat)
    requires n <= |olds|
    ensures AllTight(olds, Groups(olds, n))
    decreases n
  {
    hide Groups, Join, Joined, Joins, IsRoot, Part, Tight;
    if n > 0 {
      var t := EntryStep(olds, n - 1);
      var st, r := Groups(olds, n - 1), Groups(olds, n);
      GroupsAreTight(olds, n - 1);
      forall id | 0 <= id < |r.groups|
        ensures Tight(olds, r, id)
      {
        if t == -1 {
          OtherStaysTight(olds, st, r, id);
        } else {
          JoinKeepsTight(olds, st, n - 1, t, r, id);
        }
      }
    } else {
      NoGroups(olds);
    }
  }

  lemma NoGroups(olds: seq<Old>)
    ensures Groups(olds, 0).groups == []
  {
  }
}
