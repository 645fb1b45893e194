/** The string table of a COFF object file: how symbol names are encoded and decoded. */
module CoffStrings {
  import opened Memory
  import opened CStrings

  function Zeros(n: nat): (z: seq<Byte>)
    ensures |z| == n && forall i :: 0 <= i < n ==> z[i] == 0
  {
    if n == 0 then [] else [0] + Zeros(n - 1)
  }

  // ------------------------------------------------------- the string table

  /** A string table: its bytes, the first four being their number, and where strings start. */
  datatype Table = Table(data: seq<Byte>, directory: map<Name, nat>)

  /** The strings that do not fit into a symbol, each with its NUL. */
  function Pool(strings: seq<Name>): seq<Byte> {
    if |strings| == 0 then [] else
      var l := strings[|strings| - 1];
      Pool(strings[..|strings| - 1]) + if |l| > 8 then l + [0] else []
  }

  /** Where the last occurrence of s begins. */
  ghost predicate Locates(data: seq<Byte>, s: Name, p: nat) {
    4 <= p && p + |s| < |data| && data[p..p + |s|] == s && data[p + |s|] == 0
  }

  /** The directory knows every long string of the set and where it starts. */
  ghost predicate Indexes(directory: map<Name, nat>, data: seq<Byte>, strings: seq<Name>) {
    && (forall s {:trigger s in directory} :: s in strings && |s| > 8 ==> s in directory)
    && (forall s {:trigger s in directory} :: s in directory ==> Locates(data, s, directory[s]))
  }

  ghost predicate TableOf(t: Table, strings: seq<Name>) {
    && t.data == LittleEndian(4 + |Pool(strings)|, 4) + Pool(strings)
    && 4 + |Pool(strings)| < Pow256(4)
    && Indexes(t.directory, t.data, strings)
  }

  /** The eight name bytes of a symbol; None where the source stops with an error. */
  function Encode(t: Table, s: Name): (r: Option<seq<Byte>>)
    ensures r.Some? ==> |r.value| == 8
  {
    if |s| <= 8 then Some(s + Zeros(8 - |s|))
    else if s in t.directory then Some(Zeros(4) + LittleEndian(t.directory[s], 4))
    else None
  }

  /** The name the eight bytes stand for in a file whose string table holds data. */
  function Decode(data: seq<Byte>, x: seq<Byte>): Option<Name>
    requires |x| == 8
  {
    if Value(x[..4]) == 0 then
      var p := Value(x[4..]);
      if p >= |data| then None else Some(CString(data, p))
    else
      Some(CString(x, 0))
  }

  lemma ShortRoundTrip(t: Table, s: Name)
    requires 0 < |s| <= 8 && NulFree(s)
    ensures Decode(t.data, Encode(t, s).value) == Some(s)
  {
    var x := s + Zeros(8 - |s|);
    ValueIsZero(x[..4]);
    assert x[..4][0] == s[0];
    var padded := x + [0];
    if |s| < 8 {
      assert x[0..|s|] == s;
      CStringReads(x, 0, s);
    } else {
      assert x == s;
      WholeCString(x, 0);
      assert x[0..] == x;
    }
  }

  lemma LongRoundTrip(t: Table, strings: seq<Name>, s: Name)
    requires TableOf(t, strings) && s in strings && |s| > 8 && NulFree(s)
    ensures Encode(t, s).Some? && Decode(t.data, Encode(t, s).value) == Some(s)
  {
    hide CString, Value, LittleEndian, Pow256, Pool, Zeros;
    var p := t.directory[s];
    assert Locates(t.data, s, p);
    var x := Zeros(4) + LittleEndian(p, 4);
    assert x[..4] == Zeros(4) && x[4..] == LittleEndian(p, 4);
    ValueIsZero(x[..4]);
    ValueOfLittleEndian(p, 4);
    CStringReads(t.data, p, s);
  }

  /** The empty name is written as index 0, where the size of the table is stored. */
  lemma EmptyRoundTrip(t: Table, strings: seq<Name>)
    requires TableOf(t, strings)
    ensures Encode(t, []) == Some(Zeros(8))
    ensures Decode(t.data, Encode(t, []).value) == Some([]) <==> |t.data| % 256 == 0
  {
    hide Pow256, Pool, Zeros;
    var x := Zeros(8);
    assert [] + x == x;
    ValueIsZero(x[..4]);
    ValueIsZero(x[4..]);
    assert t.data[0] == |t.data| % 256;
  }

  /**
   * A NUL-free name of the set survives encoding and decoding unless it is empty; the empty one
   * survives by accident, when the low byte of the size of the table is zero.
   */
  lemma RoundTrip(t: Table, strings: seq<Name>, s: Name)
    requires TableOf(t, strings) && s in strings && NulFree(s)
    ensures Encode(t, s).Some?
    ensures Decode(t.data, Encode(t, s).value) == Some(s) <==> (s != [] || |t.data| % 256 == 0)
    ensures Decode(t.data, Encode(t, s).value).Some?
  {
    hide CString, Value, LittleEndian, Pow256, Pool, Zeros;
    if s == [] {
      EmptyRoundTrip(t, strings);
      EmptyDecodes(t, strings);
    } else if |s| <= 8 {
      ShortRoundTrip(t, s);
    } else {
      LongRoundTrip(t, strings, s);
    }
  }

  lemma EmptyDecodes(t: Table, strings: seq<Name>)
    requires TableOf(t, strings)
    ensures Decode(t.data, Zeros(8)).Some?
  {
    hide Pow256, Pool, Zeros;
    ValueIsZero(Zeros(8)[..4]);
    ValueIsZero(Zeros(8)[4..]);
  }

  // ------------------------------------------------------------- the class

  lemma PoolStep(strings: seq<Name>, k: nat)
    requires k < |strings|
    ensures Pool(strings[..k + 1]) == Pool(strings[..k]) + if |strings[k]| > 8 then strings[k] + [0] else []
  {
    assert strings[..k + 1][..k] == strings[..k];
  }

  lemma LocatesGrows(data: seq<Byte>, more: seq<Byte>, s: Name, p: nat)
    requires Locates(data, s, p)
    ensures Locates(data + more, s, p)
  {
    assert (data + more)[p..p + |s|] == data[p..p + |s|];
  }

  class StringTable {
    var directory: map<Name, nat>
    var data: array<Byte>

    constructor (directory: map<Name, nat>, data: array<Byte>)
      ensures this.directory == directory && this.data == data
    {
      this.directory, this.data := directory, data;
    }

    function Contents(): Table
      reads this, data
    {
      Table(data[..], directory)
    }

    /** encode; the source stops when a long name is not in the table. */
    method EncodeName(s: Name) returns (r: Option<seq<Byte>>)
      ensures r == Encode(Contents(), s)
    {
      if |s| <= 8 {
        var x := Zeros(8);
        for i := 0 to |s|
          invariant |x| == 8 && x == s[..i] + Zeros(8 - i)
        {
          ghost var rest := Zeros(8 - i);
          assert rest[1..] == Zeros(8 - i - 1);
          x := x[i := s[i]];
          assert s[..i + 1] == s[..i] + [s[i]];
        }
        assert s[..|s|] == s;
        return Some(x);
      } else if s in directory {
        return Some(Zeros(4) + LittleEndian(directory[s], 4));
      } else {
        return None;
      }
    }

    /** decode; the source stops when the index is outside the table. */
    method DecodeName(x: seq<Byte>) returns (r: Option<Name>)
      requires |x| == 8
      ensures r == Decode(data[..], x)
    {
      if Value(x[..4]) == 0 {
        var p := Value(x[4..]);
        if p >= data.Length {
          return None;
        }
        return Some(CString(data[..], p));
      } else {
        hide CString;
        var i := 0;
        ghost var all := CString(x, 0);
        assert x[..0] + all == all;
        while i < 8 && x[i] != 0
          invariant 0 <= i <= 8 && all == x[..i] + CString(x, i)
        {
          CStringStep(x, i);
          assert x[..i + 1] == x[..i] + [x[i]];
          i := i + 1;
        }
        CStringStep(x, i);
        assert x[..i] + [] == x[..i];
        return Some(x[..i]);
      }
    }
  }

  /** The size of the table for the strings. */
  method RequiredLength(strings: seq<Name>) returns (length: nat)
    ensures length == 4 + |Pool(strings)|
  {
    length := 4;
    for i := 0 to |strings|
      invariant length == 4 + |Pool(strings[..i])|
    {
      PoolStep(strings, i);
      if |strings[i]| > 8 {
        length := length + |strings[i]| + 1;
      }
    }
    assert strings[..|strings|] == strings;
  }

  lemma IndexesGrow(directory: map<Name, nat>, data: seq<Byte>, more: seq<Byte>, strings: seq<Name>, s: Name)
    requires Indexes(directory, data, strings)
    ensures |s| <= 8 ==> Indexes(directory, data, strings + [s])
    ensures |s| > 8 && Locates(data + more, s, |data|) ==> Indexes(directory[s := |data|], data + more, strings + [s])
  {
    forall x | x in directory
      ensures Locates(data + more, x, directory[x])
    {
      LocatesGrows(data, more, x, directory[x]);
    }
  }

  lemma LocatedAtEnd(data: seq<Byte>, s: Name)
    requires |data| >= 4
    ensures Locates(data + (s + [0]), s, |data|)
  {
    assert (data + (s + [0]))[|data|..|data| + |s|] == s;
  }

  /** Copies s and a NUL to data[p..]. */
  method PutString(data: array<Byte>, p: nat, s: Name)
    requires p + |s| < data.Length
    modifies data
    ensures data[..p + |s| + 1] == old(data[..p]) + (s + [0])
  {
    for j := 0 to |s|
      invariant data[..p + j] == old(data[..p]) + s[..j]
    {
      data[p + j] := s[j];
      assert data[..p + j + 1] == data[..p + j] + [s[j]];
      assert s[..j + 1] == s[..j] + [s[j]];
    }
    data[p + |s|] := 0;
    assert s[..|s|] == s;
    assert data[..p + |s| + 1] == data[..p + |s|] + [0];
  }

  lemma PoolMonotone(strings: seq<Name>, k: nat)
    requires k <= |strings|
    ensures |Pool(strings[..k])| <= |Pool(strings)|
    decreases |strings| - k
  {
    if k < |strings| {
      PoolStep(strings, k);
      PoolMonotone(strings, k + 1);
    } else {
      assert strings[..k] == strings;
    }
  }

  /** *(unsigned*)data = length. */
  method PutLength(data: array<Byte>, length: nat)
    requires data.Length >= 4
    modifies data
    ensures data[..4] == LittleEndian(length, 4)
  {
    var bs := LittleEndian(length, 4);
    for j := 0 to 4
      invariant data[..j] == bs[..j]
    {
      data[j] := bs[j];
      assert data[..j + 1] == data[..j] + [bs[j]];
    }
    assert bs[..4] == bs;
  }

  /**
   * The constructor from a set of strings, listed in the set's order; null where the source
   * stops because the table would be too long.
   */
  method FromStrings(strings: seq<Name>) returns (t: StringTable?)
    ensures t == null <==> 4 + |Pool(strings)| >= Pow256(4)
    ensures t != null ==> fresh(t) && fresh(t.data) && TableOf(t.Contents(), strings)
  {
    hide Pool, Locates, Indexes, LittleEndian;
    FourBytes();
    var length := RequiredLength(strings);
    if length > 0xffff_ffff {
      return null;
    }
    var data := new Byte[length];
    PutLength(data, length);
    var directory: map<Name, nat> := map[];
    var p := 4;
    NothingIndexed(data[..4], strings);
    for k := 0 to |strings|
      invariant 4 <= p <= length && p == 4 + |Pool(strings[..k])|
      invariant data[..p] == LittleEndian(length, 4) + Pool(strings[..k])
      invariant Indexes(directory, data[..p], strings[..k])
    {
      var s := strings[k];
      PoolStep(strings, k);
      PoolMonotone(strings, k + 1);
      assert strings[..k + 1] == strings[..k] + [s];
      LocatedAtEnd(data[..p], s);
      IndexesGrow(directory, data[..p], s + [0], strings[..k], s);
      if |s| > 8 {
        ghost var before := data[..p];
        directory := directory[s := p];
        PutString(data, p, s);
        p := p + |s| + 1;
        assert LittleEndian(length, 4) + (Pool(strings[..k]) + (s + [0])) == before + (s + [0]);
      }
    }
    assert strings[..|strings|] == strings && data[..p] == data[..];
    t := new StringTable(directory, data);
  }

  lemma NothingIndexed(data: seq<Byte>, strings: seq<Name>)
    ensures Indexes(map[], data, strings[..0]) && Pool(strings[..0]) == []
  {
  }

  // ----------------------------------------------------- a table from a file

  /** The table that init makes of the bytes raw; beyond is the byte behind them in memory. */
  function Loaded(raw: seq<Byte>, beyond: Byte): seq<Byte>
    requires |raw| >= 4
  {
    if raw[|raw| - 1] == 0 then LittleEndian(|raw|, 4) + raw[4..]
    else LittleEndian(|raw| + 1, 4) + raw[4..] + [beyond]
  }

  /** init: room for a final NUL if there is none, which the copy then writes over. */
  method Load(raw: seq<Byte>, beyond: Byte) returns (data: array<Byte>)
    requires |raw| >= 4
    ensures fresh(data) && data[..] == Loaded(raw, beyond)
  {
    var length := if raw[|raw| - 1] != 0 then |raw| + 1 else |raw|;
    data := new Byte[length];
    if raw[|raw| - 1] != 0 {
      data[|raw|] := 0;
    }
    PutLength(data, length);
    var behind := raw + [beyond];
    for j := 4 to length
      invariant data[..4] == LittleEndian(length, 4)
      invariant forall k :: 4 <= k < j ==> data[k] == behind[k]
    {
      data[j] := behind[j];
    }
    assert data[..] == data[..4] + data[4..];
    assert data[4..] == if raw[|raw| - 1] == 0 then raw[4..] else raw[4..] + [beyond];
    assert raw[4..] + [beyond] == (raw + [beyond])[4..];
  }

  /** A table that ends with a NUL and begins with its size is the file's bytes. */
  lemma LoadedIsTheFile(raw: seq<Byte>, beyond: Byte)
    requires |raw| > 4 && raw[|raw| - 1] == 0 && raw[..4] == LittleEndian(|raw|, 4)
    ensures Loaded(raw, beyond) == raw
  {
  }

  /** The table ends with a NUL, as the comment promises, iff it did in the file or one happens to follow. */
  lemma TerminatedIff(raw: seq<Byte>, beyond: Byte)
    requires |raw| > 4
    ensures var data := Loaded(raw, beyond);
      data[|data| - 1] == 0 <==> raw[|raw| - 1] == 0 || beyond == 0
  {
  }

  /** A name of nine letters at the end of the file takes the byte behind it along. */
  lemma UnterminatedNameRunsOn()
    ensures var name := [1, 1, 1, 1, 1, 1, 1, 1, 1];
      var data := Loaded(LittleEndian(13, 4) + name, 7);
      data[|data| - 1] != 0 && Decode(data, Zeros(4) + LittleEndian(4, 4)) == Some(name + [7])
  {
    hide Pow256, LittleEndian, CString, Value;
    var name: seq<Byte> := [1, 1, 1, 1, 1, 1, 1, 1, 1];
    var raw := LittleEndian(13, 4) + name;
    var data := Loaded(raw, 7);
    assert raw[4..] == name && data == LittleEndian(14, 4) + (name + [7]);
    var x := Zeros(4) + LittleEndian(4, 4);
    assert x[..4] == Zeros(4) && x[4..] == LittleEndian(4, 4);
    ValueIsZero(x[..4]);
    FourBytes();
    ValueOfLittleEndian(4, 4);
    assert data[4..] == name + [7] && NulFree(name + [7]);
    TailCString(data, 4, name + [7]);
  }

  lemma {:induction false} TailCString(data: seq<Byte>, p: nat, s: Name)
    requires p <= |data| && data[p..] == s && NulFree(s)
    ensures CString(data, p) == s
    decreases |data| - p
  {
    CStringStep(data, p);
    if p < |data| {
      assert data[p] == s[0];
      TailCString(data, p + 1, s[1..]);
    }
  }
}
