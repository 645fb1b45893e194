/** The target receives what the host sent. */
module WireRoundTrip {
  import opened Memory
  import opened CStrings
  import opened Marshal
  import opened Wire

  // --------------------------------------------------- delivery without bytes

  function DeliverPointer(v: VarDesc, h: HostVar, offset: int, buffers: seq<int>): Option<(Option<int>, seq<int>)> {
    if !TakesAddress(PointerType(v)) then Some((None, buffers))
    else if v.sinkAddr then Some((Some(PointerTo(v, h.micAddr, offset)), buffers))
    else if !v.allocIf then Some((None, buffers))
    else if buffers == [] then None
    else Some((Some(PointerTo(v, buffers[0], offset)), buffers[1..]))
  }

  /** The memory after the host's bytes were put straight into their places. */
  function DeliverData(v: VarDesc, h: HostVar, t: TargetVar, host: Mem, mem: Mem): Mem {
    if CopiesData(v) then
      Write(mem, Destination(v, t) + (if v.dst.CeanVar? then v.disp else 0), Read(host, h.data, v.size))
    else if CopiesDope(v) && v.size >= 8 then
      Write(mem, Destination(v, t) + 8, Read(host, h.dope + 8, v.size - 8))
    else mem
  }

  predicate ReceivesFunc(v: VarDesc) { v.dst.FuncPtr? && v.dirIn }

  /** The target's function of the same name; None when it has none. */
  function DeliverFunc(
    v: VarDesc, h: HostVar, funcs: seq<seq<FuncEntry>>, targetFuncs: seq<seq<FuncEntry>>
  ): Option<Option<int>> {
    if !ReceivesFunc(v) then Some(None)
    else if h.func == 0 then Some(Some(0))
    else
      match NameOf(funcs, h.func)
      case None => None
      case Some(name) =>
        if AddrOf(targetFuncs, name) == 0 then None else Some(Some(AddrOf(targetFuncs, name)))
  }

  /** What the target should end up with: every value of the host's, put straight into its place. */
  function Deliver(
    v: VarDesc, h: HostVar, t: TargetVar, destroyed: seq<nat>,
    funcs: seq<seq<FuncEntry>>, targetFuncs: seq<seq<FuncEntry>>, host: Mem, s: Target
  ): Option<Target> {
    var offset := if v.allocDisp then -h.allocDisp else v.offset;
    match (DeliverPointer(v, h, offset, s.buffers), DeliverFunc(v, h, funcs, targetFuncs))
    case (Some(p), Some(f)) =>
      Some(Target(DeliverData(v, h, t, host, s.mem), p.1,
                  s.got + [Got(offset, p.0, if CarriesStacks(v) then destroyed else [], f)]))
    case _ => None
  }

  function DeliverFrom(
    vs: seq<VarDesc>, hs: seq<HostVar>, ts: seq<TargetVar>, destroyed: seq<nat>,
    funcs: seq<seq<FuncEntry>>, targetFuncs: seq<seq<FuncEntry>>, host: Mem, s: Target, i: nat
  ): Option<Target>
    requires i <= |vs| == |hs| == |ts|
    decreases |vs| - i
  {
    if i == |vs| then Some(s) else
      match Deliver(vs[i], hs[i], ts[i], destroyed, funcs, targetFuncs, host, s)
      case None => None
      case Some(next) => DeliverFrom(vs, hs, ts, destroyed, funcs, targetFuncs, host, next, i + 1)
  }

  // --------------------------------------------------------------- fields

  /** 64-bit values, types with a case, room for the base of a dope vector, names that can be sent. */
  ghost predicate Sendable(v: VarDesc, h: HostVar, funcs: seq<seq<FuncEntry>>) {
    && IsInt64(h.allocDisp) && h.micAddr < WIDE && IsInt64(v.size) && IsInt64(v.disp)
    && Known(v.src) && Known(v.dst)
    && (v.dst.Dv? ==> v.size >= 8)
    && (ReceivesFunc(v) && h.func != 0 ==>
          NameOf(funcs, h.func).Some? ==>
            NameOf(funcs, h.func).value != [] && NulFree(NameOf(funcs, h.func).value))
  }

  ghost predicate AreAddresses(addrs: seq<nat>) {
    forall i :: 0 <= i < |addrs| ==> addrs[i] < WIDE
  }

  lemma SignedArrives(x: int, rest: seq<Byte>)
    requires IsInt64(x)
    ensures TakeSigned(Int64(x) + rest) == Some(Taken(x, rest))
  {
    hide Int64, Signed;
    TakeWritten(Int64(x), rest);
    Int64RoundTrip(x);
  }

  lemma AddressArrives(a: nat, rest: seq<Byte>)
    requires a < WIDE
    ensures TakeAddress(Int64(a) + rest) == Some(Taken(a, rest))
  {
    hide Int64, Value;
    TakeWritten(Int64(a), rest);
    Int64RoundTrip(a);
  }

  lemma {:induction false} AddressesArrive(addrs: seq<nat>, rest: seq<Byte>)
    requires AreAddresses(addrs)
    ensures TakeAddresses(Addresses(addrs) + rest, |addrs|) == Some(Taken(addrs, rest))
    decreases |addrs|
  {
    hide Int64, TakeAddress;
    if |addrs| > 0 {
      var more := Addresses(addrs[1..]) + rest;
      assert Addresses(addrs) + rest == Int64(addrs[0]) + more;
      AddressArrives(addrs[0], more);
      AddressesArrive(addrs[1..], rest);
      assert addrs == [addrs[0]] + addrs[1..];
    } else {
      assert Addresses(addrs) + rest == rest;
    }
  }

  lemma OffsetArrives(v: VarDesc, h: HostVar, rest: seq<Byte>)
    requires IsInt64(h.allocDisp)
    ensures TakeOffset(v, (if v.allocDisp then Int64(h.allocDisp) else []) + rest)
      == Some(Taken(if v.allocDisp then -h.allocDisp else v.offset, rest))
  {
    hide Int64, TakeSigned;
    if v.allocDisp {
      SignedArrives(h.allocDisp, rest);
    } else {
      assert [] + rest == rest;
    }
  }

  lemma PointerArrives(v: VarDesc, h: HostVar, offset: int, buffers: seq<int>, rest: seq<Byte>)
    requires h.micAddr < WIDE && (v.sinkAddr ==> TakesAddress(PointerType(v)))
    ensures TakePointer(v, offset, (if v.sinkAddr then Int64(h.micAddr) else []) + rest, buffers)
      == match DeliverPointer(v, h, offset, buffers)
         case None => None
         case Some(p) => Some(Pointed(p.0, rest, p.1))
  {
    hide Int64, TakeAddress, PointerTo, PointerType, TakesAddress;
    if v.sinkAddr {
      AddressArrives(h.micAddr, rest);
    } else {
      assert [] + rest == rest;
    }
  }

  lemma ExtentArrives(v: VarDesc, rest: seq<Byte>)
    requires IsInt64(v.size) && IsInt64(v.disp)
    ensures TakeExtent(v, (if v.dst.CeanVar? then Int64(v.size) + Int64(v.disp) else []) + rest)
      == Some(Taken((v.size, if v.dst.CeanVar? then v.disp else 0), rest))
  {
    hide Int64, TakeSigned;
    if v.dst.CeanVar? {
      assert Int64(v.size) + Int64(v.disp) + rest == Int64(v.size) + (Int64(v.disp) + rest);
      SignedArrives(v.size, Int64(v.disp) + rest);
      SignedArrives(v.disp, rest);
    } else {
      assert [] + rest == rest;
    }
  }

  lemma DataArrives(
    v: VarDesc, h: HostVar, t: TargetVar, funcs: seq<seq<FuncEntry>>, targetFuncs: seq<seq<FuncEntry>>,
    host: Mem, mem: Mem, rest: seq<Byte>
  )
    requires Sendable(v, h, funcs) && (CopiesData(v) || CopiesDope(v))
    ensures CopyImage(v, h, funcs, host).Some?
    ensures TakeCopy(v, t, targetFuncs, CopyImage(v, h, funcs, host).value + rest, mem)
      == Some(Copied(DeliverData(v, h, t, host, mem), None, rest))
  {
    hide Int64, TakeExtent, Write, Read;
    if CopiesData(v) {
      var extent := if v.dst.CeanVar? then Int64(v.size) + Int64(v.disp) else [];
      var data := Read(host, h.data, v.size);
      assert extent + data + rest == extent + (data + rest);
      ExtentArrives(v, data + rest);
      TakeWritten(data, rest);
    } else {
      var data := Read(host, h.dope + 8, v.size - 8);
      TakeWritten(data, rest);
    }
  }

  lemma CopyArrives(
    v: VarDesc, h: HostVar, t: TargetVar, funcs: seq<seq<FuncEntry>>, targetFuncs: seq<seq<FuncEntry>>,
    host: Mem, mem: Mem, rest: seq<Byte>
  )
    requires Sendable(v, h, funcs) && CopyImage(v, h, funcs, host).Some?
    ensures TakeCopy(v, t, targetFuncs, CopyImage(v, h, funcs, host).value + rest, mem)
      == match DeliverFunc(v, h, funcs, targetFuncs)
         case None => None
         case Some(f) => Some(Copied(DeliverData(v, h, t, host, mem), f, rest))
  {
    hide CopiesData, CopiesDope, Write, Read, AddrOf, NameOf, NulFree;
    var bs := CopyImage(v, h, funcs, host).value;
    if CopiesData(v) || CopiesDope(v) {
      assert !ReceivesFunc(v) by { CopiesNoFunc(v); }
      DataArrives(v, h, t, funcs, targetFuncs, host, mem, rest);
    } else if ReceivesFunc(v) {
      FuncArrives(funcs, targetFuncs, h.func, rest);
    } else {
      assert [] + rest == rest;
    }
  }

  lemma CopiesNoFunc(v: VarDesc)
    requires CopiesData(v) || CopiesDope(v)
    ensures !ReceivesFunc(v)
  {
  }

  lemma ReleasedArrive(v: VarDesc, destroyed: seq<nat>, copy: seq<Byte>, rest: seq<Byte>)
    requires AreAddresses(destroyed) && (CarriesStacks(v) ==> v.dst.DataPtr? && v.size == |destroyed|)
    requires v.dst.DataPtr? ==> copy == []
    ensures TakeReleased(v, (if v.dst.DataPtr? && CarriesStacks(v) then Addresses(destroyed) else copy) + rest)
      == Some(Taken(if CarriesStacks(v) then destroyed else [], copy + rest))
  {
    hide Addresses, TakeAddresses;
    if CarriesStacks(v) {
      AddressesArrive(destroyed, rest);
      assert copy + rest == rest;
    }
  }

  lemma SendableFacts(v: VarDesc, h: HostVar, funcs: seq<seq<FuncEntry>>, host: Mem)
    requires Sendable(v, h, funcs)
    ensures IsInt64(h.allocDisp) && h.micAddr < WIDE && Known(PointerType(v)) && Known(v.dst)
    ensures v.dst.DataPtr? ==> CopyImage(v, h, funcs, host) == Some([])
  {
  }

  /**
   * A variable whose layouts agree arrives: reading what the host sent has the effect of putting
   * the host's values straight into their places, and reads exactly what was sent for it.
   */
  lemma VarArrives(
    v: VarDesc, h: HostVar, t: TargetVar, destroyed: seq<nat>,
    funcs: seq<seq<FuncEntry>>, targetFuncs: seq<seq<FuncEntry>>, host: Mem, s: Target, rest: seq<Byte>
  )
    requires Agrees(v, |destroyed|) && Sendable(v, h, funcs) && AreAddresses(destroyed)
    requires VarImage(v, h, destroyed, funcs, host).Some?
    ensures ReceiveVar(v, t, targetFuncs, VarImage(v, h, destroyed, funcs, host).value + rest, s)
      == match Deliver(v, h, t, destroyed, funcs, targetFuncs, host, s)
         case None => None
         case Some(s') => Some((s', rest))
  {
    hide Int64, TakeOffset, TakePointer, TakeReleased, TakeCopy, DeliverPointer, DeliverData, DeliverFunc,
      CarriesStacks, Addresses, AreAddresses, TakesAddress, Sendable, Known, PointerType, CopyImage;
    SendableFacts(v, h, funcs, host);
    var copy := CopyImage(v, h, funcs, host).value;
    var d := if v.allocDisp then Int64(h.allocDisp) else [];
    var p := if v.sinkAddr then Int64(h.micAddr) else [];
    var r := if v.dst.DataPtr? && CarriesStacks(v) then Addresses(destroyed) else copy;
    var offset := if v.allocDisp then -h.allocDisp else v.offset;
    assert VarImage(v, h, destroyed, funcs, host).value + rest == d + (p + (r + rest));
    OffsetArrives(v, h, p + (r + rest));
    PointerArrives(v, h, offset, s.buffers, r + rest);
    ReleasedArrive(v, destroyed, copy, rest);
    CopyArrives(v, h, t, funcs, targetFuncs, host, s.mem, rest);
  }

  ghost predicate AllAgree(vs: seq<VarDesc>, hs: seq<HostVar>, destroyed: seq<nat>, funcs: seq<seq<FuncEntry>>)
    requires |vs| == |hs|
  {
    AreAddresses(destroyed) && forall i :: 0 <= i < |vs| ==> Agrees(vs[i], |destroyed|) && Sendable(vs[i], hs[i], funcs)
  }

  /** For any list of variables whose layouts agree the target reads exactly the bytes the host wrote. */
  lemma {:induction false} VarsArrive(
    vs: seq<VarDesc>, hs: seq<HostVar>, ts: seq<TargetVar>, destroyed: seq<nat>,
    funcs: seq<seq<FuncEntry>>, targetFuncs: seq<seq<FuncEntry>>, host: Mem, s: Target, i: nat, rest: seq<Byte>
  )
    requires i <= |vs| == |hs| == |ts| && AllAgree(vs, hs, destroyed, funcs)
    requires ImageFrom(vs, hs, destroyed, funcs, host, i).Some?
    ensures ReceiveFrom(vs, ts, targetFuncs, ImageFrom(vs, hs, destroyed, funcs, host, i).value + rest, s, i)
      == match DeliverFrom(vs, hs, ts, destroyed, funcs, targetFuncs, host, s, i)
         case None => None
         case Some(s') => Some((s', rest))
    decreases |vs| - i
  {
    hide ReceiveVar, Deliver, VarImage, Agrees, Sendable, AreAddresses;
    if i == |vs| {
      assert [] + rest == rest;
    } else {
      var x := VarImage(vs[i], hs[i], destroyed, funcs, host).value;
      var more := ImageFrom(vs, hs, destroyed, funcs, host, i + 1).value;
      assert x + more + rest == x + (more + rest);
      VarArrives(vs[i], hs[i], ts[i], destroyed, funcs, targetFuncs, host, s, more + rest);
      var next := Deliver(vs[i], hs[i], ts[i], destroyed, funcs, targetFuncs, host, s);
      if next.Some? {
        VarsArrive(vs, hs, ts, destroyed, funcs, targetFuncs, host, next.value, i + 1, rest);
      }
    }
  }

  // -------------------------------------------------- the layouts are real

  function Width(fs: seq<Field>): int {
    if |fs| == 0 then 0 else (if fs[0].Bytes? then fs[0].n else 8) + Width(fs[1..])
  }

  lemma {:induction false} WidthOfParts(a: seq<Field>, b: seq<Field>)
    ensures Width(a + b) == Width(a) + Width(b)
    decreases |a|
  {
    if |a| > 0 {
      assert (a + b)[1..] == a[1..] + b;
      WidthOfParts(a[1..], b);
    } else {
      assert a + b == b;
    }
  }

  lemma {:induction false} WidthOfAddresses(addrs: seq<nat>)
    ensures |Addresses(addrs)| == 8 * |addrs| == Width(Times(Obsolete, |addrs|))
    decreases |addrs|
  {
    if |addrs| > 0 {
      assert Times(Obsolete, |addrs|)[1..] == Times(Obsolete, |addrs| - 1);
      WidthOfAddresses(addrs[1..]);
    }
  }

  lemma {:induction false} WidthOfTaken(bs: seq<Byte>, n: nat)
    ensures match TakeAddresses(bs, n)
      case None => true
      case Some(t) => |bs| - |t.rest| == 8 * n == Width(Times(Obsolete, n))
    decreases n
  {
    if n > 0 && TakeAddress(bs).Some? {
      assert Times(Obsolete, n)[1..] == Times(Obsolete, n - 1);
      WidthOfTaken(TakeAddress(bs).value.rest, n - 1);
    }
  }

  lemma WidthOfCopy(v: VarDesc, h: HostVar, funcs: seq<seq<FuncEntry>>, host: Mem)
    requires !ReceivesFunc(v) && (v.dst.Dv? ==> v.size >= 8)
    ensures CopyImage(v, h, funcs, host).Some?
    ensures |CopyImage(v, h, funcs, host).value| == Width(CopyFields(v))
  {
    hide Int64, Read;
    WidthOfParts([SizeField, DispField], [Bytes(v.size)]);
    assert [SizeField, DispField][1..] == [DispField];
  }

  /** The host's bytes have the width of its fields. */
  lemma ImageHasHostFields(
    v: VarDesc, h: HostVar, destroyed: seq<nat>, funcs: seq<seq<FuncEntry>>, host: Mem
  )
    requires !ReceivesFunc(v) && (v.dst.Dv? ==> v.size >= 8)
    ensures VarImage(v, h, destroyed, funcs, host).Some?
    ensures |VarImage(v, h, destroyed, funcs, host).value| == Width(HostFields(v, |destroyed|))
  {
    hide CopyImage, CopyFields, Times, Addresses, Int64, CarriesStacks;
    var d := if v.allocDisp then [AllocDisp] else [];
    var p := if v.sinkAddr then [SinkAddr] else [];
    var r := if v.dst.DataPtr? && CarriesStacks(v) then Times(Obsolete, |destroyed|) else CopyFields(v);
    WidthOfCopy(v, h, funcs, host);
    WidthOfAddresses(destroyed);
    WidthOfParts(d + p, r);
    WidthOfParts(d, p);
  }

  lemma WidthOfTakenCopy(v: VarDesc, t: TargetVar, funcs: seq<seq<FuncEntry>>, bs: seq<Byte>, mem: Mem)
    requires !ReceivesFunc(v) && !v.dst.CeanVar?
    ensures match TakeCopy(v, t, funcs, bs, mem)
      case None => true
      case Some(c) => |bs| - |c.rest| == Width(CopyFields(v))
  {
    hide Write;
  }

  /** The target, when it gets through, reads as many bytes as its fields are wide. */
  lemma ReceiveReadsTargetFields(
    v: VarDesc, t: TargetVar, funcs: seq<seq<FuncEntry>>, bs: seq<Byte>, s: Target
  )
    requires !ReceivesFunc(v) && !v.dst.CeanVar?
    ensures match ReceiveVar(v, t, funcs, bs, s)
      case None => true
      case Some(x) => |bs| - |x.1| == Width(TargetFields(v))
  {
    hide TakeCopy, TakeAddresses, CopyFields, Times, CarriesStacks, TakesAddress, PointerTo, Signed, Value;
    var d := if v.allocDisp then [AllocDisp] else [];
    var p := if v.sinkAddr && TakesAddress(PointerType(v)) then [SinkAddr] else [];
    var r := if CarriesStacks(v) then Times(Obsolete, v.size) else [];
    WidthOfParts(d + p + r, CopyFields(v));
    WidthOfParts(d + p, r);
    WidthOfParts(d, p);
    var o := TakeOffset(v, bs);
    if o.Some? {
      var q := TakePointer(v, o.value.value, o.value.rest, s.buffers);
      if q.Some? {
        WidthOfTaken(q.value.rest, v.size);
        var k := TakeReleased(v, q.value.rest);
        if k.Some? {
          WidthOfTakenCopy(v, t, funcs, k.value.rest, s.mem);
        }
      }
    }
  }
}
