/** Sets of names kept in order, as the source's sets of strings are. */
module NameSets {
  import opened CStrings

  /** Lexicographic order on bytes. */
  predicate Less(a: Name, b: Name) {
    |b| > 0 && (|a| == 0 || a[0] < b[0] || (a[0] == b[0] && Less(a[1..], b[1..])))
  }

  lemma {:induction false} LessIsTransitive(a: Name, b: Name, c: Name)
    requires Less(a, b) && Less(b, c)
    ensures Less(a, c)
    decreases |a|
  {
    if |a| > 0 && a[0] == b[0] == c[0] {
      LessIsTransitive(a[1..], b[1..], c[1..]);
    }
  }

  lemma {:induction false} LessIsIrreflexive(a: Name)
    ensures !Less(a, a)
    decreases |a|
  {
    if |a| > 0 {
      LessIsIrreflexive(a[1..]);
    }
  }

  /** Names neither of which is smaller are equal. */
  lemma {:induction false} LessIsTotal(a: Name, b: Name)
    ensures Less(a, b) || Less(b, a) || a == b
    decreases |a|
  {
    if |a| > 0 && |b| > 0 && a[0] == b[0] {
      LessIsTotal(a[1..], b[1..]);
    }
  }

  ghost predicate Sorted(s: seq<Name>) {
    forall i, j :: 0 <= i < j < |s| ==> Less(s[i], s[j])
  }

  type NameSet = s: seq<Name> | Sorted(s)

  function Insert(s: seq<Name>, x: Name): (r: seq<Name>) {
    if |s| == 0 || Less(x, s[0]) then [x] + s
    else if Less(s[0], x) then [s[0]] + Insert(s[1..], x)
    else s
  }

  /** Insertion adds exactly x and keeps the order. */
  lemma {:induction false} InsertAdds(s: seq<Name>, x: Name)
    requires Sorted(s)
    ensures Sorted(Insert(s, x))
    ensures forall y :: y in Insert(s, x) <==> y in s || y == x
    decreases |s|
  {
    hide Less;
    if |s| == 0 {
    } else if Less(x, s[0]) {
      forall k | 0 <= k < |s|
        ensures Less(x, s[k])
      {
        if k > 0 {
          LessIsTransitive(x, s[0], s[k]);
        }
      }
    } else if Less(s[0], x) {
      InsertAdds(s[1..], x);
      var t := Insert(s[1..], x);
      assert s == [s[0]] + s[1..];
      assert forall y :: y in s[1..] ==> Less(s[0], y);
      assert forall k :: 0 <= k < |t| ==> t[k] in t;
    } else {
      LessIsTotal(x, s[0]);
    }
  }

  /** The merge loop that looks for a common element. */
  method IsDisjoint(a: NameSet, b: NameSet) returns (r: bool)
    ensures r <==> !exists x :: x in a && x in b
  {
    hide Less;
    var i, j := 0, 0;
    while i < |a| && j < |b|
      invariant 0 <= i <= |a| && 0 <= j <= |b|
      invariant forall k {:trigger a[k]} :: 0 <= k < i ==> a[k] !in b
      invariant forall k {:trigger b[k]} :: 0 <= k < j ==> b[k] !in a
      decreases |a| - i + |b| - j
    {
      LessIsTotal(a[i], b[j]);
      if Less(a[i], b[j]) {
        SmallerThanTheRest(a[i], b, j);
        i := i + 1;
      } else if Less(b[j], a[i]) {
        SmallerThanTheRest(b[j], a, i);
        j := j + 1;
      } else {
        assert a[i] in a && a[i] in b;
        return false;
      }
    }
    return true;
  }

  /** Of a sorted sequence x can only be an element before position j when it is below s[j]. */
  lemma SmallerThanTheRest(x: Name, s: NameSet, j: nat)
    requires j < |s| && Less(x, s[j])
    requires forall k {:trigger s[k]} :: 0 <= k < j ==> s[k] != x
    ensures x !in s
  {
    hide Less;
    forall k | j <= k < |s|
      ensures s[k] != x
    {
      LessIsIrreflexive(x);
      if k > j {
        LessIsTransitive(x, s[j], s[k]);
      }
    }
  }
}
