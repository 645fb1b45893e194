/** The copy-in data of an offload: what the host gathers and what the target scatters. */
module Wire {
  import opened Memory
  import opened CStrings
  import opened Marshal

  /** OffloadItemType. */
  datatype ItemType =
    | Data | DataPtr | FuncPtr | VoidPtr | StringPtr | Dv | DvData | DvDataSlice | DvPtr | DvPtrData
    | DvPtrDataSlice | CeanVar | CeanVarPtr | DataPtrArray | FuncPtrArray

  datatype VarDesc = VarDesc(
    src: ItemType, dst: ItemType, dirIn: bool, dirOut: bool, hasInto: bool, allocIf: bool, freeIf: bool,
    allocDisp: bool, sinkAddr: bool, isStaticDstn: bool, isStackBuf: bool,
    micOffset: nat, offset: int, size: nat, disp: int)

  /** What the host sends for a variable; data and dope are host addresses. */
  datatype HostVar = HostVar(allocDisp: int, micAddr: nat, data: int, dope: int, func: int)

  /** The target's own addresses of a variable, put there by merge_var_descs. */
  datatype TargetVar = TargetVar(ptr: int, into: int)

  /** The type that decides how the target sets the pointer. */
  function PointerType(v: VarDesc): ItemType {
    if v.dirOut || !v.hasInto then v.src else v.dst
  }

  predicate IsPtr(t: ItemType) {
    t.StringPtr? || t.DataPtr? || t.CeanVarPtr? || t.DvPtr?
  }

  predicate IsDvData(t: ItemType) {
    t.DvData? || t.DvPtrData? || t.DvDataSlice? || t.DvPtrDataSlice?
  }

  predicate TakesAddress(t: ItemType) { IsPtr(t) || IsDvData(t) }

  /** The types the target has a case for. */
  predicate Known(t: ItemType) { !t.FuncPtrArray? }

  predicate CopiesData(v: VarDesc) {
    (v.dst.Data? || v.dst.VoidPtr? || v.dst.CeanVar?) && v.dirIn && !v.isStaticDstn
  }

  predicate CopiesDope(v: VarDesc) {
    v.dst.Dv? && (v.dirIn || v.dirOut || v.allocIf || v.freeIf)
  }

  /** The variable carries the obsolete stack buffers, whatever its type. */
  predicate CarriesStacks(v: VarDesc) {
    v.isStackBuf && !v.dirIn && !v.dirOut && v.allocIf && v.size != 0
  }

  // --------------------------------------------------------------- layouts

  datatype Field = AllocDisp | SinkAddr | Obsolete | SizeField | DispField | Bytes(n: int) | Func

  function Times(f: Field, n: nat): (r: seq<Field>)
    ensures |r| == n && forall i :: 0 <= i < n ==> r[i] == f
  {
    seq(n, _ => f)
  }

  function CopyFields(v: VarDesc): seq<Field> {
    if CopiesData(v) then
      (if v.dst.CeanVar? then [SizeField, DispField] else []) + [Bytes(v.size)]
    else if CopiesDope(v) then [Bytes(v.size - 8)]
    else if v.dst.FuncPtr? && v.dirIn then [Func]
    else []
  }

  /** The fields the host writes when there are n obsolete stacks. */
  function HostFields(v: VarDesc, n: nat): seq<Field> {
    (if v.allocDisp then [AllocDisp] else [])
    + (if v.sinkAddr then [SinkAddr] else [])
    + (if v.dst.DataPtr? && CarriesStacks(v) then Times(Obsolete, n) else CopyFields(v))
  }

  /** The fields the target reads. */
  function TargetFields(v: VarDesc): seq<Field> {
    (if v.allocDisp then [AllocDisp] else [])
    + (if v.sinkAddr && TakesAddress(PointerType(v)) then [SinkAddr] else [])
    + (if CarriesStacks(v) then Times(Obsolete, v.size) else [])
    + CopyFields(v)
  }

  /** Sink addresses only where the target looks for one, obsolete stacks only on c_data_ptr. */
  predicate Agrees(v: VarDesc, n: nat) {
    && (v.sinkAddr ==> TakesAddress(PointerType(v)))
    && (CarriesStacks(v) ==> v.dst.DataPtr? && v.size == n)
  }

  lemma SamePrefix<T>(d: seq<T>, a: seq<T>, b: seq<T>)
    ensures d + a == d + b <==> a == b
  {
    assert (d + a)[|d|..] == a && (d + b)[|d|..] == b;
  }

  /** A leading sink address cannot be mistaken for another field. */
  lemma SinkShows(hostSink: bool, targetSink: bool, a: seq<Field>, b: seq<Field>)
    requires targetSink ==> hostSink
    requires |b| > 0 ==> b[0] != SinkAddr
    ensures (if hostSink then [SinkAddr] else []) + a == (if targetSink then [SinkAddr] else []) + b
      <==> hostSink == targetSink && a == b
  {
    if hostSink == targetSink {
      SamePrefix(if hostSink then [SinkAddr] else [], a, b);
    } else {
      assert ([SinkAddr] + a)[0] == SinkAddr;
      assert [] + b == b;
    }
  }

  /** The target reads the fields that the host wrote exactly when the variable agrees. */
  lemma LayoutsAgreeIff(v: VarDesc, n: nat)
    ensures HostFields(v, n) == TargetFields(v) <==> Agrees(v, n)
  {
    hide CopiesData, CopiesDope, CarriesStacks, PointerType, TakesAddress, Times, CopyFields;
    var d := if v.allocDisp then [AllocDisp] else [];
    var hs := if v.sinkAddr then [SinkAddr] else [];
    var ts := if v.sinkAddr && TakesAddress(PointerType(v)) then [SinkAddr] else [];
    var hr := if v.dst.DataPtr? && CarriesStacks(v) then Times(Obsolete, n) else CopyFields(v);
    var tr := (if CarriesStacks(v) then Times(Obsolete, v.size) else []) + CopyFields(v);
    assert HostFields(v, n) == d + (hs + hr) && TargetFields(v) == d + (ts + tr);
    SamePrefix(d, hs + hr, ts + tr);
    NoLeadingSink(v, n);
    SinkShows(v.sinkAddr, v.sinkAddr && TakesAddress(PointerType(v)), hr, tr);
    RestsAgreeIff(v, n);
  }

  lemma NoLeadingSink(v: VarDesc, n: nat)
    ensures var tr := (if CarriesStacks(v) then Times(Obsolete, v.size) else []) + CopyFields(v);
      |tr| > 0 ==> tr[0] != SinkAddr
  {
  }

  lemma RestsAgreeIff(v: VarDesc, n: nat)
    ensures var hr := if v.dst.DataPtr? && CarriesStacks(v) then Times(Obsolete, n) else CopyFields(v);
      var tr := (if CarriesStacks(v) then Times(Obsolete, v.size) else []) + CopyFields(v);
      hr == tr <==> (CarriesStacks(v) ==> v.dst.DataPtr? && v.size == n)
  {
    var hr := if v.dst.DataPtr? && CarriesStacks(v) then Times(Obsolete, n) else CopyFields(v);
    var tr := (if CarriesStacks(v) then Times(Obsolete, v.size) else []) + CopyFields(v);
    if CarriesStacks(v) {
      assert |tr| == v.size + |CopyFields(v)|;
      if v.dst.DataPtr? {
        assert CopyFields(v) == [];
      } else {
        assert |hr| != |tr|;
      }
    } else {
      assert tr == hr;
    }
  }

  /** A stack buffer that is not transferred, with a type other than c_data_ptr. */
  lemma StringPtrIsMisread()
    ensures var v := VarDesc(StringPtr, StringPtr, false, false, false, true, false, false, false, false, true, 0, 0, 1, 0);
      HostFields(v, 1) == [] && TargetFields(v) == [Obsolete]
  {
    assert Times(Obsolete, 1) == [Obsolete];
  }

  // ---------------------------------------------------------- what is sent

  function Addresses(addrs: seq<nat>): seq<Byte> {
    if |addrs| == 0 then [] else Int64(addrs[0]) + Addresses(addrs[1..])
  }

  /** The bytes that copy the variable's value. */
  function CopyImage(v: VarDesc, h: HostVar, funcs: seq<seq<FuncEntry>>, host: Mem): Option<seq<Byte>> {
    if CopiesData(v) then
      Some((if v.dst.CeanVar? then Int64(v.size) + Int64(v.disp) else [])
           + Read(host, h.data, v.size))
    else if CopiesDope(v) && v.size >= 8 then Some(Read(host, h.dope + 8, v.size - 8))
    else if v.dst.FuncPtr? && v.dirIn then FuncImage(funcs, h.func)
    else Some([])
  }

  /** Everything the host sends for a variable. */
  function VarImage(
    v: VarDesc, h: HostVar, destroyed: seq<nat>, funcs: seq<seq<FuncEntry>>, host: Mem
  ): Option<seq<Byte>> {
    match CopyImage(v, h, funcs, host)
    case None => None
    case Some(copy) =>
      Some((if v.allocDisp then Int64(h.allocDisp) else [])
           + (if v.sinkAddr then Int64(h.micAddr) else [])
           + if v.dst.DataPtr? && CarriesStacks(v) then Addresses(destroyed) else copy)
  }

  /** Everything the host sends for the variables from i on; None where the source stops. */
  function ImageFrom(
    vs: seq<VarDesc>, hs: seq<HostVar>, destroyed: seq<nat>, funcs: seq<seq<FuncEntry>>, host: Mem, i: nat
  ): Option<seq<Byte>>
    requires i <= |vs| == |hs|
    decreases |vs| - i
  {
    if i == |vs| then Some([]) else
      match (VarImage(vs[i], hs[i], destroyed, funcs, host), ImageFrom(vs, hs, destroyed, funcs, host, i + 1))
      case (Some(x), Some(more)) => Some(x + more)
      case _ => None
  }

  // ------------------------------------------------------ what is received

  function TakeSigned(bs: seq<Byte>): Option<Taken<int>> {
    match Take(bs, 8)
    case None => None
    case Some(t) => Some(Taken(Signed(t.value), t.rest))
  }

  function TakeAddress(bs: seq<Byte>): Option<Taken<nat>> {
    match Take(bs, 8)
    case None => None
    case Some(t) => Some(Taken(Value(t.value), t.rest))
  }

  function TakeAddresses(bs: seq<Byte>, n: nat): Option<Taken<seq<nat>>> {
    if n == 0 then Some(Taken([], bs)) else
      match TakeAddress(bs)
      case None => None
      case Some(a) =>
        match TakeAddresses(a.rest, n - 1)
        case None => None
        case Some(more) => Some(Taken([a.value] + more.value, more.rest))
  }

  /** What the target has learned about a variable. */
  datatype Got = Got(offset: int, pointer: Option<int>, released: seq<nat>, func: Option<int>)

  /** The target's memory, the buffers that the host allocated for it, the variables so far. */
  datatype Target = Target(mem: Mem, buffers: seq<int>, got: seq<Got>)

  /** The value for the target's pointer when its buffer is at buf. */
  function PointerTo(v: VarDesc, buf: int, offset: int): int {
    if v.allocIf && buf == 0 then 0
    else buf + v.micOffset + if v.isStackBuf && IsPtr(PointerType(v)) then 0 else offset
  }

  datatype Pointed = Pointed(pointer: Option<int>, rest: seq<Byte>, buffers: seq<int>)

  function TakePointer(v: VarDesc, offset: int, bs: seq<Byte>, buffers: seq<int>): Option<Pointed> {
    if !TakesAddress(PointerType(v)) then Some(Pointed(None, bs, buffers))
    else if v.sinkAddr then
      match TakeAddress(bs)
      case None => None
      case Some(a) => Some(Pointed(Some(PointerTo(v, a.value, offset)), a.rest, buffers))
    else if v.allocIf then
      if buffers == [] then None
      else Some(Pointed(Some(PointerTo(v, buffers[0], offset)), bs, buffers[1..]))
    else Some(Pointed(None, bs, buffers))
  }

  function Destination(v: VarDesc, t: TargetVar): int {
    if v.hasInto then t.into else t.ptr
  }

  datatype Copied = Copied(mem: Mem, func: Option<int>, rest: seq<Byte>)

  /** Size and displacement of a section travel with the data. */
  function TakeExtent(v: VarDesc, bs: seq<Byte>): Option<Taken<(int, int)>> {
    if !v.dst.CeanVar? then Some(Taken((v.size, 0), bs)) else
      match TakeSigned(bs)
      case None => None
      case Some(size) =>
        match TakeSigned(size.rest)
        case None => None
        case Some(disp) => Some(Taken((size.value, disp.value), disp.rest))
  }

  /** The data of a variable, put in its place. */
  function TakeData(v: VarDesc, t: TargetVar, bs: seq<Byte>, mem: Mem): Option<Taken<Mem>> {
    match TakeExtent(v, bs)
    case None => None
    case Some(e) =>
      if e.value.0 < 0 then None else
        match Take(e.rest, e.value.0)
        case None => None
        case Some(d) => Some(Taken(Write(mem, Destination(v, t) + e.value.1, d.value), d.rest))
  }

  function TakeCopy(
    v: VarDesc, t: TargetVar, funcs: seq<seq<FuncEntry>>, bs: seq<Byte>, mem: Mem
  ): Option<Copied> {
    if CopiesData(v) then
      match TakeData(v, t, bs, mem)
      case None => None
      case Some(d) => Some(Copied(d.value, None, d.rest))
    else if CopiesDope(v) then
      if v.size < 8 then None else
        match Take(bs, v.size - 8)
        case None => None
        case Some(d) => Some(Copied(Write(mem, Destination(v, t) + 8, d.value), None, d.rest))
    else if v.dst.FuncPtr? && v.dirIn then
      match TakeFunc(funcs, bs)
      case None => None
      case Some(f) => Some(Copied(mem, Some(f.value), f.rest))
    else Some(Copied(mem, None, bs))
  }

  function TakeOffset(v: VarDesc, bs: seq<Byte>): Option<Taken<int>> {
    if !v.allocDisp then Some(Taken(v.offset, bs)) else
      match TakeSigned(bs)
      case None => None
      case Some(x) => Some(Taken(-x.value, x.rest))
  }

  function TakeReleased(v: VarDesc, bs: seq<Byte>): Option<Taken<seq<nat>>> {
    if CarriesStacks(v) then TakeAddresses(bs, v.size) else Some(Taken([], bs))
  }

  /** One variable; None where the source stops or reads past the end of the data. */
  function ReceiveVar(
    v: VarDesc, t: TargetVar, funcs: seq<seq<FuncEntry>>, bs: seq<Byte>, s: Target
  ): Option<(Target, seq<Byte>)> {
    match TakeOffset(v, bs)
    case None => None
    case Some(o) =>
      if !Known(PointerType(v)) then None else
        match TakePointer(v, o.value, o.rest, s.buffers)
        case None => None
        case Some(p) =>
          match TakeReleased(v, p.rest)
          case None => None
          case Some(r) =>
            if !Known(v.dst) then None else
              match TakeCopy(v, t, funcs, r.rest, s.mem)
              case None => None
              case Some(c) =>
                Some((Target(c.mem, p.buffers, s.got + [Got(o.value, p.pointer, r.value, c.func)]), c.rest))
  }

  function ReceiveFrom(
    vs: seq<VarDesc>, ts: seq<TargetVar>, funcs: seq<seq<FuncEntry>>, bs: seq<Byte>, s: Target, i: nat
  ): Option<(Target, seq<Byte>)>
    requires i <= |vs| == |ts|
    decreases |vs| - i
  {
    if i == |vs| then Some((s, bs)) else
      match ReceiveVar(vs[i], ts[i], funcs, bs, s)
      case None => None
      case Some(next) => ReceiveFrom(vs, ts, funcs, next.1, next.0, i + 1)
  }
}
