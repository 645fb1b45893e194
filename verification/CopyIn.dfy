/** The loops that gather the copy-in data on the host and scatter it on the target. */
module CopyIn {
  import opened Memory
  import opened CStrings
  import opened Marshal
  import opened Wire
  import opened WireRoundTrip
  import opened Arrivals

  // ------------------------------------------------------------- the host

  /** The room a variable needs; the source stops at an unknown function after the leading fields. */
  function Room(v: VarDesc, h: HostVar, destroyed: seq<nat>, funcs: seq<seq<FuncEntry>>, host: Mem): nat {
    match VarImage(v, h, destroyed, funcs, host)
    case Some(image) => |image|
    case None => 16
  }

  /** Size and displacement of a section. */
  function Extent(v: VarDesc): seq<Byte> {
    if v.dst.CeanVar? then Int64(v.size) + Int64(v.disp) else []
  }

  method GatherExtent(m: Marshaller, v: VarDesc)
    requires m.Valid() && m.ptr + |Extent(v)| <= m.buffer.Length
    modifies m`ptr, m`tfrSize, m.buffer
    ensures m.Valid() && m.Written() == old(m.Written()) + Extent(v)
  {
    hide Int64;
    if v.dst.CeanVar? {
      m.SendData(Int64(v.size));
      m.SendData(Int64(v.disp));
    }
  }

  method GatherData(m: Marshaller, v: VarDesc, h: HostVar, host: Mem)
    requires m.Valid() && m.ptr + |Extent(v)| + v.size <= m.buffer.Length
    modifies m`ptr, m`tfrSize, m.buffer
    ensures m.Valid() && m.Written() == old(m.Written()) + (Extent(v) + Read(host, h.data, v.size))
  {
    hide Extent, Read;
    GatherExtent(m, v);
    m.SendData(Read(host, h.data, v.size));
  }

  method GatherCopy(m: Marshaller, v: VarDesc, h: HostVar, funcs: seq<seq<FuncEntry>>, host: Mem)
    returns (ok: bool)
    requires m.Valid() && (v.dst.Dv? ==> v.size >= 8)
    requires CopyImage(v, h, funcs, host).Some? ==>
      m.ptr + |CopyImage(v, h, funcs, host).value| <= m.buffer.Length
    modifies m`ptr, m`tfrSize, m.buffer
    ensures m.Valid() && ok == CopyImage(v, h, funcs, host).Some?
    ensures ok ==> m.Written() == old(m.Written()) + CopyImage(v, h, funcs, host).value
  {
    hide Int64, Read, FuncImage;
    ok := true;
    if v.dst.Data? || v.dst.VoidPtr? || v.dst.CeanVar? {
      if v.dirIn && !v.isStaticDstn {
        GatherData(m, v, h, host);
      }
    } else if v.dst.Dv? {
      if v.dirIn || v.dirOut || v.allocIf || v.freeIf {
        m.SendData(Read(host, h.dope + 8, v.size - 8));
      }
    } else if v.dst.FuncPtr? {
      if v.dirIn {
        ok := m.SendFuncPtr(funcs, h.func);
      }
    }
  }

  method GatherAddresses(m: Marshaller, addrs: seq<nat>)
    requires m.Valid() && m.ptr + |Addresses(addrs)| <= m.buffer.Length
    modifies m`ptr, m`tfrSize, m.buffer
    ensures m.Valid() && m.Written() == old(m.Written()) + Addresses(addrs)
  {
    hide Int64;
    for i := 0 to |addrs|
      invariant m.Valid() && m.ptr + |Addresses(addrs[i..])| <= m.buffer.Length
      invariant m.Written() + Addresses(addrs[i..]) == old(m.Written()) + Addresses(addrs)
    {
      assert addrs[i..][1..] == addrs[i + 1..];
      ghost var was := m.Written();
      m.SendData(Int64(addrs[i]));
      assert was + (Int64(addrs[i]) + Addresses(addrs[i + 1..])) == m.Written() + Addresses(addrs[i + 1..]);
    }
    assert addrs[|addrs|..] == [];
  }

  function Head(v: VarDesc, h: HostVar): seq<Byte> {
    (if v.allocDisp then Int64(h.allocDisp) else []) + (if v.sinkAddr then Int64(h.micAddr) else [])
  }

  /** The fields before the value. */
  method GatherHead(m: Marshaller, v: VarDesc, h: HostVar)
    requires m.Valid() && m.ptr + |Head(v, h)| <= m.buffer.Length
    modifies m`ptr, m`tfrSize, m.buffer
    ensures m.Valid() && m.Written() == old(m.Written()) + Head(v, h)
  {
    hide Int64;
    if v.allocDisp {
      m.SendData(Int64(h.allocDisp));
    }
    if v.sinkAddr {
      m.SendData(Int64(h.micAddr));
    }
  }

  lemma ImageHasHead(v: VarDesc, h: HostVar, destroyed: seq<nat>, funcs: seq<seq<FuncEntry>>, host: Mem)
    ensures |Head(v, h)| <= Room(v, h, destroyed, funcs, host)
    ensures v.dst.DataPtr? ==>
      VarImage(v, h, destroyed, funcs, host)
        == Some(Head(v, h) + if CarriesStacks(v) then Addresses(destroyed) else [])
    ensures !v.dst.DataPtr? ==>
      match CopyImage(v, h, funcs, host)
      case None => VarImage(v, h, destroyed, funcs, host) == None
      case Some(copy) => VarImage(v, h, destroyed, funcs, host) == Some(Head(v, h) + copy)
  {
    hide Int64, Addresses, FuncImage, Read;
  }

  method GatherVar(
    m: Marshaller, v: VarDesc, h: HostVar, destroyed: seq<nat>, funcs: seq<seq<FuncEntry>>, host: Mem
  ) returns (ok: bool)
    requires m.Valid() && (v.dst.Dv? ==> v.size >= 8)
    requires m.ptr + Room(v, h, destroyed, funcs, host) <= m.buffer.Length
    modifies m`ptr, m`tfrSize, m.buffer
    ensures m.Valid() && ok == VarImage(v, h, destroyed, funcs, host).Some?
    ensures ok ==> m.Written() == old(m.Written()) + VarImage(v, h, destroyed, funcs, host).value
  {
    hide Head, VarImage, CopyImage, Addresses;
    ImageHasHead(v, h, destroyed, funcs, host);
    ok := true;
    GatherHead(m, v, h);
    if v.dst.DataPtr? {
      if v.isStackBuf && !v.dirIn && !v.dirOut && v.allocIf && v.size != 0 {
        GatherAddresses(m, destroyed);
      }
    } else {
      ok := GatherCopy(m, v, h, funcs, host);
    }
  }

  /** The room the variables from i on need. */
  function RoomFrom(
    vs: seq<VarDesc>, hs: seq<HostVar>, destroyed: seq<nat>, funcs: seq<seq<FuncEntry>>, host: Mem, i: nat
  ): nat
    requires i <= |vs| == |hs|
    decreases |vs| - i
  {
    if i == |vs| then 0
    else Room(vs[i], hs[i], destroyed, funcs, host) + RoomFrom(vs, hs, destroyed, funcs, host, i + 1)
  }

  /** gather_copyin_data; false where the source stops. */
  method GatherCopyinData(
    m: Marshaller, vs: seq<VarDesc>, hs: seq<HostVar>, destroyed: seq<nat>,
    funcs: seq<seq<FuncEntry>>, host: Mem
  ) returns (ok: bool)
    requires |vs| == |hs| && m.Valid()
    requires forall i :: 0 <= i < |vs| ==> vs[i].dst.Dv? ==> vs[i].size >= 8
    requires m.ptr + RoomFrom(vs, hs, destroyed, funcs, host, 0) <= m.buffer.Length
    modifies m`ptr, m`tfrSize, m.buffer
    ensures m.Valid() && ok == ImageFrom(vs, hs, destroyed, funcs, host, 0).Some?
    ensures ok ==> m.Written() == old(m.Written()) + ImageFrom(vs, hs, destroyed, funcs, host, 0).value
  {
    hide VarImage;
    for i := 0 to |vs|
      invariant m.Valid()
      invariant m.ptr + RoomFrom(vs, hs, destroyed, funcs, host, i) <= m.buffer.Length
      invariant match ImageFrom(vs, hs, destroyed, funcs, host, i)
        case None => ImageFrom(vs, hs, destroyed, funcs, host, 0).None?
        case Some(more) =>
          && ImageFrom(vs, hs, destroyed, funcs, host, 0).Some?
          && m.Written() + more == old(m.Written()) + ImageFrom(vs, hs, destroyed, funcs, host, 0).value
    {
      var sent := GatherVar(m, vs[i], hs[i], destroyed, funcs, host);
      if !sent {
        return false;
      }
    }
    ok := true;
  }

  // ----------------------------------------------------------- the target

  /** The two lists have the same types, and the host sent no fewer descriptors. */
  predicate Match(received: seq<VarDesc>, types: seq<(ItemType, ItemType)>) {
    |types| <= |received|
    && forall i :: 0 <= i < |types| ==> (received[i].src, received[i].dst) == types[i]
  }

  /** merge_var_descs: takes the addresses from the target's own list; None where the source stops. */
  method MergeVarDescs(
    received: seq<VarDesc>, hostAddrs: seq<TargetVar>, types: seq<(ItemType, ItemType)>, own: seq<TargetVar>
  ) returns (r: Option<seq<TargetVar>>)
    requires |hostAddrs| == |received| && |own| == |types|
    ensures r.Some? <==> Match(received, types)
    ensures r.Some? ==> r.value == own + hostAddrs[|own|..]
  {
    if |received| < |types| {
      return None;
    }
    var ts := hostAddrs;
    for i := 0 to |received|
      invariant |ts| == |received|
      invariant forall k :: 0 <= k < i && k < |types| ==> (received[k].src, received[k].dst) == types[k]
      invariant forall k :: 0 <= k < |ts| ==> ts[k] == if k < i && k < |own| then own[k] else hostAddrs[k]
    {
      if i < |types| {
        if (received[i].src, received[i].dst) != types[i] {
          return None;
        }
        ts := ts[i := own[i]];
      }
    }
    r := Some(ts);
  }

  method ScatterAddress(m: Marshaller) returns (r: Option<nat>)
    requires m.Valid()
    modifies m`ptr, m`tfrSize
    ensures m.Valid()
    ensures match TakeAddress(old(m.Unread()))
      case None => r.None?
      case Some(t) => r == Some(t.value) && m.Unread() == t.rest
  {
    hide Value;
    var bs := m.ReceiveData(8);
    r := if bs.None? then None else Some(Value(bs.value));
  }

  method ScatterSigned(m: Marshaller) returns (r: Option<int>)
    requires m.Valid()
    modifies m`ptr, m`tfrSize
    ensures m.Valid()
    ensures match TakeSigned(old(m.Unread()))
      case None => r.None?
      case Some(t) => r == Some(t.value) && m.Unread() == t.rest
  {
    hide Signed;
    var bs := m.ReceiveData(8);
    r := if bs.None? then None else Some(Signed(bs.value));
  }

  /** Sets the pointer of a variable. */
  method ScatterPointer(m: Marshaller, v: VarDesc, offset: int, buffers: seq<int>)
    returns (r: Option<(Option<int>, seq<int>)>)
    requires m.Valid()
    modifies m`ptr, m`tfrSize
    ensures m.Valid()
    ensures match TakePointer(v, offset, old(m.Unread()), buffers)
      case None => r.None?
      case Some(p) => r == Some((p.pointer, p.buffers)) && m.Unread() == p.rest
  {
    hide TakeAddress;
    var rest := buffers;
    if !TakesAddress(PointerType(v)) {
      return Some((None, rest));
    }
    var buf: int;
    var shift := if v.isStackBuf && IsPtr(PointerType(v)) then 0 else offset;
    if v.allocIf {
      if v.sinkAddr {
        var a := ScatterAddress(m);
        if a.None? {
          return None;
        }
        buf := a.value;
      } else {
        if rest == [] {
          return None;
        }
        buf, rest := rest[0], rest[1..];
      }
      var ptr := 0;
      if buf != 0 {
        ptr := buf + v.micOffset + shift;
      }
      return Some((Some(ptr), rest));
    } else if v.sinkAddr {
      var a := ScatterAddress(m);
      if a.None? {
        return None;
      }
      buf := a.value;
      return Some((Some(buf + v.micOffset + shift), rest));
    }
    return Some((None, rest));
  }

  /** Reads the obsolete buffers to release. */
  method ScatterReleased(m: Marshaller, v: VarDesc) returns (r: Option<seq<nat>>)
    requires m.Valid()
    modifies m`ptr, m`tfrSize
    ensures m.Valid()
    ensures match TakeReleased(v, old(m.Unread()))
      case None => r.None?
      case Some(t) => r == Some(t.value) && m.Unread() == t.rest
  {
    hide TakeAddress;
    var released: seq<nat> := [];
    if v.isStackBuf && !v.dirIn && !v.dirOut && v.allocIf && v.size != 0 {
      ghost var bs := m.Unread();
      assert forall t: seq<nat> :: released + t == t;
      for j := 0 to v.size
        invariant m.Valid()
        invariant match TakeAddresses(m.Unread(), v.size - j)
          case None => TakeAddresses(bs, v.size).None?
          case Some(t) => TakeAddresses(bs, v.size) == Some(Taken(released + t.value, t.rest))
      {
        var a := ScatterAddress(m);
        if a.None? {
          return None;
        }
        ghost var was := released;
        released := released + [a.value];
        assert forall t: seq<nat> :: was + ([a.value] + t) == released + t;
      }
      assert released + [] == released;
    }
    r := Some(released);
  }

  /** Size and displacement of the data. */
  method ScatterExtent(m: Marshaller, v: VarDesc) returns (r: Option<(int, int)>)
    requires m.Valid()
    modifies m`ptr, m`tfrSize
    ensures m.Valid()
    ensures match TakeExtent(v, old(m.Unread()))
      case None => r.None?
      case Some(t) => r == Some(t.value) && m.Unread() == t.rest
  {
    hide TakeSigned;
    if v.dst.CeanVar? {
      var size := ScatterSigned(m);
      if size.None? {
        return None;
      }
      var disp := ScatterSigned(m);
      return if disp.None? then None else Some((size.value, disp.value));
    }
    r := Some((v.size, 0));
  }

  /** Copies received data to its place. */
  method ScatterData(m: Marshaller, v: VarDesc, t: TargetVar, mem: Mem) returns (r: Option<Mem>)
    requires m.Valid()
    modifies m`ptr, m`tfrSize
    ensures m.Valid()
    ensures match TakeData(v, t, old(m.Unread()), mem)
      case None => r.None?
      case Some(d) => r == Some(d.value) && m.Unread() == d.rest
  {
    hide TakeExtent, Take, Write, Destination;
    var e := ScatterExtent(m, v);
    if e.None? || e.value.0 < 0 {
      return None;
    }
    var data := m.ReceiveData(e.value.0);
    r := if data.None? then None else Some(Write(mem, Destination(v, t) + e.value.1, data.value));
  }

  /** Copies the value of a variable into the target's memory. */
  method ScatterCopy(m: Marshaller, v: VarDesc, t: TargetVar, funcs: seq<seq<FuncEntry>>, mem: Mem)
    returns (r: Option<(Mem, Option<int>)>)
    requires m.Valid()
    modifies m`ptr, m`tfrSize
    ensures m.Valid()
    ensures match TakeCopy(v, t, funcs, old(m.Unread()), mem)
      case None => r.None?
      case Some(c) => r == Some((c.mem, c.func)) && m.Unread() == c.rest
  {
    hide TakeData, Write, TakeFunc;
    if v.dst.Data? || v.dst.VoidPtr? || v.dst.CeanVar? {
      if v.dirIn && !v.isStaticDstn {
        var mem' := ScatterData(m, v, t, mem);
        return if mem'.None? then None else Some((mem'.value, None));
      }
    } else if v.dst.Dv? {
      if v.dirIn || v.dirOut || v.allocIf || v.freeIf {
        if v.size < 8 {
          return None;
        }
        var data := m.ReceiveData(v.size - 8);
        if data.None? {
          return None;
        }
        return Some((Write(mem, Destination(v, t) + 8, data.value), None));
      }
    } else if v.dst.FuncPtr? {
      if v.dirIn {
        var f := m.ReceiveFuncPtr(funcs);
        if f.None? {
          return None;
        }
        return Some((mem, f));
      }
    }
    return Some((mem, None));
  }

  method ScatterVar(m: Marshaller, v: VarDesc, t: TargetVar, funcs: seq<seq<FuncEntry>>, s: Target)
    returns (r: Option<Target>)
    requires m.Valid()
    modifies m`ptr, m`tfrSize
    ensures m.Valid()
    ensures match ReceiveVar(v, t, funcs, old(m.Unread()), s)
      case None => r.None?
      case Some(x) => r == Some(x.0) && m.Unread() == x.1
  {
    hide TakeSigned, TakePointer, TakeReleased, TakeCopy, PointerType;
    var offset := v.offset;
    if v.allocDisp {
      var a := ScatterSigned(m);
      if a.None? {
        return None;
      }
      offset := -a.value;
    }
    if !Known(PointerType(v)) {
      return None;
    }
    var p := ScatterPointer(m, v, offset, s.buffers);
    if p.None? {
      return None;
    }
    var released := ScatterReleased(m, v);
    if released.None? || !Known(v.dst) {
      return None;
    }
    var c := ScatterCopy(m, v, t, funcs, s.mem);
    if c.None? {
      return None;
    }
    r := Some(Target(c.value.0, p.value.1, s.got + [Got(offset, p.value.0, released.value, c.value.1)]));
  }

  /** scatter_copyin_data; None where the source stops or would read past the end of the buffer. */
  method ScatterCopyinData(
    m: Marshaller, vs: seq<VarDesc>, ts: seq<TargetVar>, funcs: seq<seq<FuncEntry>>, s: Target
  ) returns (r: Option<Target>)
    requires |vs| == |ts| && m.Valid()
    modifies m`ptr, m`tfrSize
    ensures m.Valid()
    ensures match ReceiveFrom(vs, ts, funcs, old(m.Unread()), s, 0)
      case None => r.None?
      case Some(x) => r == Some(x.0) && m.Unread() == x.1
  {
    hide ReceiveVar;
    var state := s;
    for i := 0 to |vs|
      invariant m.Valid()
      invariant ReceiveFrom(vs, ts, funcs, old(m.Unread()), s, 0) == ReceiveFrom(vs, ts, funcs, m.Unread(), state, i)
    {
      var next := ScatterVar(m, vs[i], ts[i], funcs, state);
      if next.None? {
        return None;
      }
      state := next.value;
    }
    r := Some(state);
  }

  /** Gathering and then scattering puts every value of the host's into its place on the target. */
  method CopyIn(
    buffer: array<Byte>, vs: seq<VarDesc>, hs: seq<HostVar>, ts: seq<TargetVar>, destroyed: seq<nat>,
    funcs: seq<seq<FuncEntry>>, targetFuncs: seq<seq<FuncEntry>>, host: Mem, s: Target
  ) returns (r: Option<Target>)
    requires |vs| == |hs| == |ts| && AllAgree(vs, hs, destroyed, funcs)
    requires ImageFrom(vs, hs, destroyed, funcs, host, 0).Some?
    requires RoomFrom(vs, hs, destroyed, funcs, host, 0) <= buffer.Length
    modifies buffer
    ensures r == DeliverFrom(vs, hs, ts, destroyed, funcs, targetFuncs, host, s, 0)
    ensures r.Some? ==> Arrived(vs, hs, ts, destroyed, funcs, targetFuncs, host, s, r.value)
  {
    hide ImageFrom, ReceiveFrom, DeliverFrom, RoomFrom, Agrees, Arrived;
    var m := new Marshaller(buffer);
    assert forall i :: 0 <= i < |vs| ==> Sendable(vs[i], hs[i], funcs);
    var sent := GatherCopyinData(m, vs, hs, destroyed, funcs, host);
    ghost var wire := ImageFrom(vs, hs, destroyed, funcs, host, 0).value;
    var m' := new Marshaller(buffer);
    ghost var rest := m'.Unread()[|wire|..];
    assert m'.Unread() == wire + rest;
    VarsArrive(vs, hs, ts, destroyed, funcs, targetFuncs, host, s, 0, rest);
    r := ScatterCopyinData(m', vs, ts, targetFuncs, s);
    if r.Some? {
      AllArrived(vs, hs, ts, destroyed, funcs, targetFuncs, host, s);
    }
  }
}
