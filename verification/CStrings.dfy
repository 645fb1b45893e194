/** NUL-terminated names. */
module CStrings {
  import opened Memory

  /** A name is a sequence of bytes; only NUL-free names can be written. */
  type Name = seq<Byte>

  datatype Option<T> = None | Some(value: T)

  predicate NulFree(s: seq<Byte>) {
    forall i :: 0 <= i < |s| ==> s[i] != 0
  }

  /** The string that starts at data + p and ends before the next NUL. */
  function CString(data: seq<Byte>, p: nat): Name
    requires p <= |data|
    decreases |data| - p
  {
    if p == |data| || data[p] == 0 then [] else [data[p]] + CString(data, p + 1)
  }

  lemma CStringStep(data: seq<Byte>, p: nat)
    requires p <= |data|
    ensures CString(data, p) == if p == |data| || data[p] == 0 then [] else [data[p]] + CString(data, p + 1)
  {
  }

  lemma {:induction false} CStringReads(data: seq<Byte>, p: nat, s: Name)
    requires p + |s| < |data| && data[p..p + |s|] == s && data[p + |s|] == 0 && NulFree(s)
    ensures CString(data, p) == s
    decreases |s|
  {
    if |s| > 0 {
      assert data[p] == s[0];
      assert data[p + 1..p + |s|] == s[1..];
      CStringReads(data, p + 1, s[1..]);
    }
  }

  lemma {:induction false} WholeCString(data: seq<Byte>, p: nat)
    requires p <= |data| && NulFree(data)
    ensures CString(data, p) == data[p..]
    decreases |data| - p
  {
    if p < |data| {
      WholeCString(data, p + 1);
    }
  }

  lemma {:induction false} CStringIsNulFree(data: seq<Byte>, p: nat)
    requires p <= |data|
    ensures NulFree(CString(data, p))
    decreases |data| - p
  {
    if p < |data| && data[p] != 0 {
      CStringIsNulFree(data, p + 1);
    }
  }
}
