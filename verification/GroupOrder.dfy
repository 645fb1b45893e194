/** The order in which translate_map creates groups, read off the argument list. */
module GroupOrder {
  import opened Grouping
  import opened GroupCover
  import opened TranslateMap

  /** Entry i is the first to join entry r, which joined none itself. */
  ghost predicate FirstJoiner(olds: seq<Old>, r: nat, i: nat) {
    r < |olds| && IsRoot(olds, r) && Joins(olds, i, r) && forall j: nat :: j < i ==> !Joins(olds, j, r)
  }

  /** Of two entries that others join, the earlier is joined first. */
  ghost predicate RootsInOrder(olds: seq<Old>) {
    forall r: nat, r': nat, i: nat, i': nat ::
      r < r' && FirstJoiner(olds, r, i) && FirstJoiner(olds, r', i') ==> i < i'
  }

  // ----------------------------------------------------------- one entry

  /** What one more entry does to the group of entry k and to the number of groups. */
  lemma OneMore(olds: seq<Old>, i: nat, k: nat)
    requires k <= i < |olds|
    ensures |Groups(olds, i).groups| <= |Groups(olds, i + 1).groups|
    ensures k < i && !(Joins(olds, i, k) && Groups(olds, i).memberOf[k] == NO_GROUP) ==>
      Groups(olds, i + 1).memberOf[k] == Groups(olds, i).memberOf[k]
    ensures k < i && Joins(olds, i, k) && Groups(olds, i).memberOf[k] == NO_GROUP ==>
      && Groups(olds, i + 1).memberOf[k] == |Groups(olds, i).groups|
      && |Groups(olds, i + 1).groups| == |Groups(olds, i).groups| + 1
    ensures k == i && IsRoot(olds, i) ==> Groups(olds, i + 1).memberOf[k] == NO_GROUP
  {
    hide Groups, Joins, IsRoot, Joined;
    var t := EntryStep(olds, i);
    var st, r := Groups(olds, i), Groups(olds, i + 1);
    if t == -1 {
      if Joins(olds, i, k) {
        RootJoinsNone(olds, i, k);
      }
    } else {
      JoinedEffect(olds, st, i, t, r);
      RootJoinsNone(olds, i, t);
      if Joins(olds, i, k) {
        OneJoined(olds, i, t, k);
      }
    }
  }

  lemma {:induction false} GroupsOnlyGrow(olds: seq<Old>, i: nat, n: nat)
    requires i <= n <= |olds|
    ensures |Groups(olds, i).groups| <= |Groups(olds, n).groups|
    decreases n
  {
    hide Groups;
    if i < n {
      GroupsOnlyGrow(olds, i, n - 1);
      OneMore(olds, n - 1, n - 1);
    }
  }

  // ---------------------------------------------------------- all entries

  /** A root that nobody has joined yet is in no group. */
  lemma {:induction false} UnjoinedIsAlone(olds: seq<Old>, r: nat, n: nat)
    requires r < n <= |olds| && IsRoot(olds, r) && forall j: nat :: j < n ==> !Joins(olds, j, r)
    ensures Groups(olds, n).memberOf[r] == NO_GROUP
    decreases n
  {
    hide Groups, Joins, IsRoot;
    OneMore(olds, n - 1, r);
    if r < n - 1 {
      UnjoinedIsAlone(olds, r, n - 1);
    }
  }

  /** The group of a root is numbered by the groups there are when its first joiner comes. */
  lemma {:induction false} NumberOfRoot(olds: seq<Old>, r: nat, i: nat, n: nat)
    requires FirstJoiner(olds, r, i) && i < n <= |olds|
    ensures Groups(olds, n).memberOf[r] == |Groups(olds, i).groups| < |Groups(olds, n).groups|
    decreases n
  {
    hide Groups, Joins, IsRoot;
    JoinsEarlier(olds, i, r);
    OneMore(olds, n - 1, r);
    if i < n - 1 {
      NumberOfRoot(olds, r, i, n - 1);
    } else {
      UnjoinedIsAlone(olds, r, i);
    }
  }

  /** A grouped root has been joined. */
  lemma {:induction false} GroupedIsJoined(olds: seq<Old>, r: nat, n: nat) returns (i: nat)
    requires r < n <= |olds| && IsRoot(olds, r) && Groups(olds, n).memberOf[r] != NO_GROUP
    ensures i < n && FirstJoiner(olds, r, i)
  {
    hide Groups, Joins, IsRoot;
    assert exists j: nat :: j < n && Joins(olds, j, r) by {
      if forall j: nat :: j < n ==> !Joins(olds, j, r) {
        UnjoinedIsAlone(olds, r, n);
      }
    }
    i := 0;
    while !Joins(olds, i, r)
      invariant i < n && forall j: nat :: j < i ==> !Joins(olds, j, r)
      invariant exists j: nat :: i <= j < n && Joins(olds, j, r)
      decreases n - i
    {
      i := i + 1;
    }
  }

  lemma JoinerExists(olds: seq<Old>, r: nat, i: nat)
    requires FirstJoiner(olds, r, i)
    ensures r < i < |olds|
  {
  }

  /** Groups are numbered in the order of their first joiners. */
  lemma NumberedByJoiners(olds: seq<Old>, r: nat, i: nat, r': nat, i': nat)
    requires FirstJoiner(olds, r, i) && FirstJoiner(olds, r', i') && i < i'
    ensures r < |olds| && r' < |olds| && MemberOf(olds)[r] < MemberOf(olds)[r']
  {
    hide Groups, FirstJoiner;
    JoinerExists(olds, r, i);
    JoinerExists(olds, r', i');
    NumberOfRoot(olds, r, i, |olds|);
    NumberOfRoot(olds, r, i, i + 1);
    NumberOfRoot(olds, r', i', |olds|);
    GroupsOnlyGrow(olds, i + 1, i');
  }

  // --------------------------------------------------- order of appearance

  /** Of two groups the one that appears first has the smaller number. */
  ghost predicate FirstsIncrease(m: seq<int>) {
    forall k: nat, k': nat {:trigger IsFirst(m, k), IsFirst(m, k')} ::
      k < k' < |m| && m[k] >= 0 && m[k'] >= 0 && IsFirst(m, k) && IsFirst(m, k') ==> m[k] < m[k']
  }

  /** Every number below one in use appears. */
  ghost predicate Numbered(m: seq<int>) {
    forall k, c :: 0 <= k < |m| && 0 <= c < m[k] ==> c in m
  }

  lemma PrefixHas(m: seq<int>, l: nat, k: nat, c: int)
    requires l <= k <= |m| && c in m[..l]
    ensures c in m[..k]
  {
    assert m[..k][..l] == m[..l];
  }

  lemma {:induction false} LowerSeen(m: seq<int>, k: nat, c: nat)
    requires InOrder(m) && k < |m| && c < m[k]
    ensures c in m[..k]
    decreases m[k] - c
  {
    assert m[k] - 1 in m[..k];
    if c < m[k] - 1 {
      var l :| 0 <= l < k && m[l] == m[k] - 1;
      LowerSeen(m, l, c);
      PrefixHas(m, l, k, c);
    }
  }

  lemma FirstOccurrence(m: seq<int>, c: int) returns (k: nat)
    requires c in m
    ensures k < |m| && m[k] == c && IsFirst(m, k)
  {
    k := 0;
    while m[k] != c
      invariant k < |m| && c in m[k..]
      invariant forall l {:trigger m[l]} :: 0 <= l < k ==> m[l] != c
      decreases |m| - k
    {
      assert m[k..] == [m[k]] + m[k + 1..];
      k := k + 1;
    }
  }

  lemma InOrderIffFirstsIncrease(m: seq<int>)
    requires Numbered(m)
    ensures InOrder(m) <==> FirstsIncrease(m)
  {
    if InOrder(m) {
      forall k: nat, k': nat | k < k' < |m| && m[k] >= 0 && m[k'] >= 0 && IsFirst(m, k) && IsFirst(m, k')
        ensures m[k] < m[k']
      {
        if m[k'] < m[k] {
          LowerSeen(m, k, m[k']);
        }
        assert m[k] != m[k'];
      }
    }
    if FirstsIncrease(m) {
      forall k | 0 <= k < |m| && m[k] > 0
        ensures m[k] - 1 in m[..k]
      {
        var c := m[k] - 1;
        assert c in m;
        var f := FirstOccurrence(m, c);
        var g := FirstOccurrence(m, m[k]);
        assert g <= k && f < g;
        assert m[..k][f] == c;
      }
    }
  }

  // ------------------------------------------------------------ the result

  lemma FirstsAreRoots(olds: seq<Old>, k: nat)
    requires k < |olds| && MemberOf(olds)[k] != NO_GROUP
    ensures IsRoot(olds, k) <==> IsFirst(MemberOf(olds), k)
  {
    hide Groups, IsRoot, IsFirst, Part, Chained, HasOpener;
    GroupsArePartition(olds, |olds|);
    assert MemberCovered(olds, Groups(olds, |olds|), k);
  }

  lemma AllNumbered(olds: seq<Old>)
    ensures Numbered(MemberOf(olds)) && forall k :: 0 <= k < |olds| ==> MemberOf(olds)[k] >= NO_GROUP
  {
    hide Groups, IsRoot, MemberCovered, Chained;
    var st := Groups(olds, |olds|);
    GroupsArePartition(olds, |olds|);
    forall k, c | 0 <= k < |olds| && 0 <= c < st.memberOf[k]
      ensures c in st.memberOf
    {
      assert HasOpener(olds, st, c);
      var j: nat :| Opened(olds, st, c, j);
    }
  }

  /** Groups first appear in creation order exactly when earlier roots are joined first. */
  lemma InOrderIffRootsInOrder(olds: seq<Old>)
    ensures InOrder(MemberOf(olds)) <==> RootsInOrder(olds)
  {
    hide InOrder, Groups, IsRoot, IsFirst, FirstJoiner, Numbered;
    var m := MemberOf(olds);
    AllNumbered(olds);
    InOrderIffFirstsIncrease(m);
    if FirstsIncrease(m) {
      forall r: nat, r': nat, i: nat, i': nat | r < r' && FirstJoiner(olds, r, i) && FirstJoiner(olds, r', i')
        ensures i < i'
      {
        RootsAreFirsts(olds, r, i);
        RootsAreFirsts(olds, r', i');
        if i' < i {
          NumberedByJoiners(olds, r', i', r, i);
        }
        assert i != i' by { JoinerOfOne(olds, r, r', i, i'); }
      }
    }
    if RootsInOrder(olds) {
      forall k: nat, k': nat | k < k' < |m| && m[k] >= 0 && m[k'] >= 0 && IsFirst(m, k) && IsFirst(m, k')
        ensures m[k] < m[k']
      {
        FirstsAreRoots(olds, k);
        FirstsAreRoots(olds, k');
        var i := GroupedIsJoined(olds, k, |olds|);
        var i' := GroupedIsJoined(olds, k', |olds|);
        NumberedByJoiners(olds, k, i, k', i');
      }
    }
  }

  lemma JoinerOfOne(olds: seq<Old>, r: nat, r': nat, i: nat, i': nat)
    requires FirstJoiner(olds, r, i) && FirstJoiner(olds, r', i') && r != r'
    ensures i != i'
  {
    if i == i' {
      OneJoined(olds, i, r, r');
    }
  }

  lemma RootsAreFirsts(olds: seq<Old>, r: nat, i: nat)
    requires FirstJoiner(olds, r, i)
    ensures r < |olds| && MemberOf(olds)[r] >= 0 && IsFirst(MemberOf(olds), r)
  {
    hide Groups, IsFirst;
    NumberOfRoot(olds, r, i, |olds|);
    FirstsAreRoots(olds, r);
  }

  /** So the new list is determined by the old one exactly when earlier roots are joined first. */
  lemma DeterminedIffRootsInOrder(olds: seq<Old>, target: bool)
    ensures RootsInOrder(olds) <==>
      forall junk, junk': seq<int> {:trigger Translated(olds, target, junk), Translated(olds, target, junk')} ::
        |junk| == |junk'| == |Groups(olds, |olds|).groups|
        ==> Translated(olds, target, junk) == Translated(olds, target, junk')
  {
    hide RootsInOrder, InOrder;
    InOrderIffRootsInOrder(olds);
    DeterminedIffInOrder(olds, target);
  }

  // ------------------------------------------------------ groups and bases

  /**
   * Entry i shares a base with the earlier entry j: a pointee is reached through the pointer that
   * j begins with, which is not itself reached through one, and a member of a variable has j's base.
   */
  predicate SharesBase(a: Old, b: Old) {
    if a.ty.mapPtr then a.base != 0 && a.base == b.begin && !b.ty.mapPtr
    else a.begin != 0 && !a.ty.firstMap && a.base == b.base
  }

  /** Entry j is the first that entry i shares a base with. */
  predicate FirstBase(olds: seq<Old>, i: nat, j: nat) {
    && j < i < |olds| && SharesBase(olds[i], olds[j])
    && forall k {:trigger olds[k]} :: 0 <= k < j ==> !SharesBase(olds[i], olds[k])
  }

  lemma JoinsIsFirstBase(olds: seq<Old>, i: nat, j: nat)
    ensures Joins(olds, i, j) <==> FirstBase(olds, i, j)
  {
    if j < i < |olds| {
      forall k | 0 <= k <= j
        ensures Shared(olds, i, k).begin != 0 <==> SharesBase(olds[i], olds[k])
      {
      }
      assert forall k {:trigger Shared(olds, i, k)} :: 0 <= k < j ==> olds[k] == olds[k];
    }
  }

  /**
   * An entry is in the group of the first entry it shares a base with. In each group every entry
   * but the first shares a base with an earlier one; and the first is shared by a later one.
   */
  lemma GroupsFollowBases(olds: seq<Old>)
    ensures var m := MemberOf(olds);
      && (forall i: nat, j: nat :: FirstBase(olds, i, j) ==> m[i] == m[j] != NO_GROUP)
      && (forall k: nat :: k < |olds| && m[k] != NO_GROUP ==>
            if IsFirst(m, k) then exists i: nat :: FirstBase(olds, i, k) else exists j: nat :: FirstBase(olds, k, j))
  {
    hide Groups, IsRoot, Part, HasOpener, Joins, FirstBase;
    var m, n := MemberOf(olds), |olds|;
    GroupsArePartition(olds, n);
    forall i: nat, j: nat | FirstBase(olds, i, j)
      ensures i < n && j < n && m[i] == m[j] != NO_GROUP
    {
      FirstBaseInside(olds, i, j);
      JoinsIsFirstBase(olds, i, j);
    }
    forall k: nat | k < n && m[k] != NO_GROUP
      ensures if IsFirst(m, k) then exists i: nat :: FirstBase(olds, i, k) else exists j: nat :: FirstBase(olds, k, j)
    {
      FirstsAreRoots(olds, k);
      if IsFirst(m, k) {
        var i := GroupedIsJoined(olds, k, n);
        JoinsIsFirstBase(olds, i, k);
      } else {
        var j := NonRootJoins(olds, k);
        JoinsIsFirstBase(olds, k, j);
      }
    }
  }

  lemma FirstBaseInside(olds: seq<Old>, i: nat, j: nat)
    requires FirstBase(olds, i, j)
    ensures j < i < |olds|
  {
  }

  lemma NonRootJoins(olds: seq<Old>, k: nat) returns (j: nat)
    requires k < |olds| && !IsRoot(olds, k)
    ensures Joins(olds, k, j)
  {
    var l: nat :| l < k && Shared(olds, k, l).begin != 0;
    j := FirstShared(olds, k, l);
  }
}
