/** Where the values of a copy-in end up on the target, variable by variable. */
module Arrivals {
  import opened Memory
  import opened CStrings
  import opened Marshal
  import opened Wire
  import opened WireRoundTrip

  // ------------------------------------------------------------------ data

  /** The len bytes from host address from on go to target address to. */
  datatype Block = Block(to: int, from: int, len: int)

  /** What copy-in transfers for a variable, as its descriptor and both sides' addresses say. */
  function BlockOf(v: VarDesc, h: HostVar, t: TargetVar): Block {
    var place := if v.hasInto then t.into else t.ptr;
    match v.dst
    case Data | VoidPtr => Block(place, h.data, if v.dirIn && !v.isStaticDstn then v.size else 0)
    case CeanVar => Block(place + v.disp, h.data, if v.dirIn && !v.isStaticDstn then v.size else 0)
    case Dv => Block(place + 8, h.dope + 8, if v.dirIn || v.dirOut || v.allocIf || v.freeIf then v.size - 8 else 0)
    case _ => Block(0, 0, 0)
  }

  predicate Within(b: Block, a: int) {
    b.to <= a < b.to + b.len
  }

  lemma BlockIsDelivered(v: VarDesc, h: HostVar, t: TargetVar, host: Mem, mem: Mem, a: int)
    ensures var b := BlockOf(v, h, t);
      DeliverData(v, h, t, host, mem)(a) == if Within(b, a) then host(b.from + (a - b.to)) else mem(a)
  {
    hide Read, Write;
    var b := BlockOf(v, h, t);
    if b.len > 0 {
      WrittenByte(mem, b.to, host, b.from, b.len, a);
    } else if CopiesData(v) {
      WrittenByte(mem, b.to, host, b.from, 0, a);
    } else if CopiesDope(v) && v.size == 8 {
      WrittenByte(mem, b.to, host, b.from, 0, a);
    }
  }

  lemma WrittenByte(m: Mem, to: int, host: Mem, from: int, n: nat, a: int)
    ensures Write(m, to, Read(host, from, n))(a) == if to <= a < to + n then host(from + (a - to)) else m(a)
  {
    if to <= a < to + n {
      assert Read(host, from, n)[(from + (a - to)) - from] == host(from + (a - to));
    }
  }

  /** Variable j, and none after it, has address a in its block. */
  predicate LastFor(vs: seq<VarDesc>, hs: seq<HostVar>, ts: seq<TargetVar>, a: int, j: nat)
    requires |vs| == |hs| == |ts|
  {
    && j < |vs| && Within(BlockOf(vs[j], hs[j], ts[j]), a)
    && forall l :: j < l < |vs| ==> !Within(BlockOf(vs[l], hs[l], ts[l]), a)
  }

  /** After all variables from i on: the last block with the address decides, and no other byte changes. */
  lemma {:induction false} BytesFrom(
    vs: seq<VarDesc>, hs: seq<HostVar>, ts: seq<TargetVar>, destroyed: seq<nat>,
    funcs: seq<seq<FuncEntry>>, targetFuncs: seq<seq<FuncEntry>>, host: Mem, s: Target, i: nat, a: int
  )
    requires i <= |vs| == |hs| == |ts|
    requires DeliverFrom(vs, hs, ts, destroyed, funcs, targetFuncs, host, s, i).Some?
    ensures var mem := DeliverFrom(vs, hs, ts, destroyed, funcs, targetFuncs, host, s, i).value.mem;
      && (forall j :: i <= j < |vs| && LastFor(vs, hs, ts, a, j) ==>
            var b := BlockOf(vs[j], hs[j], ts[j]); mem(a) == host(b.from + (a - b.to)))
      && ((forall j :: i <= j < |vs| ==> !Within(BlockOf(vs[j], hs[j], ts[j]), a)) ==> mem(a) == s.mem(a))
    decreases |vs| - i
  {
    hide BlockOf, DeliverPointer, DeliverFunc, DeliverData;
    if i < |vs| {
      var next := Deliver(vs[i], hs[i], ts[i], destroyed, funcs, targetFuncs, host, s);
      BytesFrom(vs, hs, ts, destroyed, funcs, targetFuncs, host, next.value, i + 1, a);
      BlockIsDelivered(vs[i], hs[i], ts[i], host, s.mem, a);
      assert LastFor(vs, hs, ts, a, i) ==>
          forall j :: i + 1 <= j < |vs| ==> !Within(BlockOf(vs[j], hs[j], ts[j]), a);
    }
  }

  /** No two variables have a byte of the target in common. */
  predicate Disjoint(vs: seq<VarDesc>, hs: seq<HostVar>, ts: seq<TargetVar>)
    requires |vs| == |hs| == |ts|
  {
    forall i, j :: 0 <= i < j < |vs| ==>
      var b, c := BlockOf(vs[i], hs[i], ts[i]), BlockOf(vs[j], hs[j], ts[j]);
      b.to + b.len <= c.to || c.to + c.len <= b.to || b.len <= 0 || c.len <= 0
  }

  // -------------------------------------------------------------- the rest

  /** The pointer of the variable takes a buffer that the host has allocated for it. */
  predicate TakesBuffer(v: VarDesc) {
    var ty := if v.dirOut || !v.hasInto then v.src else v.dst;
    && (ty in {StringPtr, DataPtr, CeanVarPtr, DvPtr} || ty in {DvData, DvPtrData, DvDataSlice, DvPtrDataSlice})
    && v.allocIf && !v.sinkAddr
  }

  /** How many of the first n variables do. */
  function Takers(vs: seq<VarDesc>, n: nat): nat
    requires n <= |vs|
  {
    if n == 0 then 0 else Takers(vs, n - 1) + if TakesBuffer(vs[n - 1]) then 1 else 0
  }

  /** The value for the variable's pointer, given the buffer it would take. */
  function PointerOf(v: VarDesc, h: HostVar, buffer: int, offset: int): Option<int> {
    var ty := if v.dirOut || !v.hasInto then v.src else v.dst;
    var variable, dopeData := ty in {StringPtr, DataPtr, CeanVarPtr, DvPtr}, ty in {DvData, DvPtrData, DvDataSlice, DvPtrDataSlice};
    var start := if v.sinkAddr then h.micAddr else buffer;
    if !(variable || dopeData) || !(v.allocIf || v.sinkAddr) then None
    else if v.allocIf && start == 0 then Some(0)
    else if variable && v.isStackBuf then Some(start + v.micOffset)
    else Some(start + v.micOffset + offset)
  }

  /** What the target learns about variable j. */
  ghost predicate Learned(
    v: VarDesc, h: HostVar, destroyed: seq<nat>, funcs: seq<seq<FuncEntry>>, targetFuncs: seq<seq<FuncEntry>>,
    buffer: int, got: Got
  ) {
    && got.offset == (if v.allocDisp then -h.allocDisp else v.offset)
    && got.pointer == PointerOf(v, h, buffer, got.offset)
    && got.released == (if v.isStackBuf && !v.dirIn && !v.dirOut && v.allocIf && v.size != 0 then destroyed else [])
    && (if v.dst.FuncPtr? && v.dirIn then
          got.func.Some? &&
            if h.func == 0 then got.func.value == 0
            else exists name :: Found(funcs, name, h.func) && got.func.value == AddrOf(targetFuncs, name) != 0
        else got.func.None?)
  }

  /** Some table has the name for the address, and it is the first in the last table that knows the address. */
  ghost predicate Found(funcs: seq<seq<FuncEntry>>, name: Name, func: int) {
    exists i: nat, j: nat :: Deciding(funcs, func, i, j) && funcs[i][j].name == Some(name)
  }

  lemma OneLearned(
    v: VarDesc, h: HostVar, t: TargetVar, destroyed: seq<nat>,
    funcs: seq<seq<FuncEntry>>, targetFuncs: seq<seq<FuncEntry>>, host: Mem, s: Target, buffer: int
  )
    requires Deliver(v, h, t, destroyed, funcs, targetFuncs, host, s).Some?
    requires TakesBuffer(v) && |s.buffers| > 0 ==> buffer == s.buffers[0]
    ensures var s' := Deliver(v, h, t, destroyed, funcs, targetFuncs, host, s).value;
      && |s'.got| == |s.got| + 1 && s'.got[..|s.got|] == s.got
      && Learned(v, h, destroyed, funcs, targetFuncs, buffer, s'.got[|s.got|])
      && (TakesBuffer(v) ==> |s.buffers| > 0)
      && s'.buffers == if TakesBuffer(v) then s.buffers[1..] else s.buffers
  {
    hide DeliverData, AddrOf, NameOf, Found;
    if ReceivesFunc(v) && h.func != 0 {
      NameIsFound(funcs, h.func);
    }
  }

  lemma NameIsFound(funcs: seq<seq<FuncEntry>>, func: int)
    ensures NameOf(funcs, func).Some? ==> Found(funcs, NameOf(funcs, func).value, func)
  {
    hide NameOf, FirstWith, Unknown;
    var i, j := NameOfDeciding(funcs, func);
  }

  /** Variable by variable, the buffers being taken in order. */
  lemma {:induction false} LearnedFrom(
    vs: seq<VarDesc>, hs: seq<HostVar>, ts: seq<TargetVar>, destroyed: seq<nat>,
    funcs: seq<seq<FuncEntry>>, targetFuncs: seq<seq<FuncEntry>>, host: Mem, s: Target, i: nat, all: seq<int>, j: nat
  )
    requires i <= j < |vs| == |hs| == |ts|
    requires DeliverFrom(vs, hs, ts, destroyed, funcs, targetFuncs, host, s, i).Some?
    requires Takers(vs, i) <= |all| && s.buffers == all[Takers(vs, i)..]
    ensures var s' := DeliverFrom(vs, hs, ts, destroyed, funcs, targetFuncs, host, s, i).value;
      && |s'.got| == |s.got| + (|vs| - i) && s.got == s'.got[..|s.got|]
      && (TakesBuffer(vs[j]) ==> Takers(vs, j) < |all|)
      && Learned(vs[j], hs[j], destroyed, funcs, targetFuncs,
                 if TakesBuffer(vs[j]) then all[Takers(vs, j)] else 0, s'.got[|s.got| + (j - i)])
    decreases |vs| - i
  {
    hide Deliver, Learned, TakesBuffer;
    var v := vs[i];
    var next := Deliver(v, hs[i], ts[i], destroyed, funcs, targetFuncs, host, s).value;
    var buffer := if TakesBuffer(v) && |s.buffers| > 0 then s.buffers[0] else 0;
    OneLearned(v, hs[i], ts[i], destroyed, funcs, targetFuncs, host, s, buffer);
    assert next.buffers == all[Takers(vs, i + 1)..];
    GotGrows(vs, hs, ts, destroyed, funcs, targetFuncs, host, next, i + 1);
    if i < j {
      LearnedFrom(vs, hs, ts, destroyed, funcs, targetFuncs, host, next, i + 1, all, j);
    }
  }

  lemma {:induction false} GotGrows(
    vs: seq<VarDesc>, hs: seq<HostVar>, ts: seq<TargetVar>, destroyed: seq<nat>,
    funcs: seq<seq<FuncEntry>>, targetFuncs: seq<seq<FuncEntry>>, host: Mem, s: Target, i: nat
  )
    requires i <= |vs| == |hs| == |ts|
    requires DeliverFrom(vs, hs, ts, destroyed, funcs, targetFuncs, host, s, i).Some?
    ensures var s' := DeliverFrom(vs, hs, ts, destroyed, funcs, targetFuncs, host, s, i).value;
      |s'.got| == |s.got| + (|vs| - i) && s.got == s'.got[..|s.got|]
    decreases |vs| - i
  {
    hide DeliverData, DeliverPointer, DeliverFunc;
    if i < |vs| {
      var next := Deliver(vs[i], hs[i], ts[i], destroyed, funcs, targetFuncs, host, s).value;
      GotGrows(vs, hs, ts, destroyed, funcs, targetFuncs, host, next, i + 1);
      var s' := DeliverFrom(vs, hs, ts, destroyed, funcs, targetFuncs, host, s, i).value;
      assert s'.got[..|s.got|] == s'.got[..|next.got|][..|s.got|];
    }
  }

  // ------------------------------------------------------------ all of it

  /** Every variable's bytes and values are where they belong, and no other byte of the target has changed. */
  ghost predicate Arrived(
    vs: seq<VarDesc>, hs: seq<HostVar>, ts: seq<TargetVar>, destroyed: seq<nat>,
    funcs: seq<seq<FuncEntry>>, targetFuncs: seq<seq<FuncEntry>>, host: Mem, s: Target, s': Target
  )
    requires |vs| == |hs| == |ts|
  {
    && (forall a, j: nat {:trigger LastFor(vs, hs, ts, a, j)} :: LastFor(vs, hs, ts, a, j) ==>
          var b := BlockOf(vs[j], hs[j], ts[j]); s'.mem(a) == host(b.from + (a - b.to)))
    && (forall a :: (forall j :: 0 <= j < |vs| ==> !Within(BlockOf(vs[j], hs[j], ts[j]), a)) ==> s'.mem(a) == s.mem(a))
    && |s'.got| == |s.got| + |vs| && s.got == s'.got[..|s.got|]
    && (forall j: nat :: j < |vs| ==>
          && (TakesBuffer(vs[j]) ==> Takers(vs, j) < |s.buffers|)
          && Learned(vs[j], hs[j], destroyed, funcs, targetFuncs,
                     if TakesBuffer(vs[j]) then s.buffers[Takers(vs, j)] else 0, s'.got[|s.got| + j]))
  }

  lemma AllArrived(
    vs: seq<VarDesc>, hs: seq<HostVar>, ts: seq<TargetVar>, destroyed: seq<nat>,
    funcs: seq<seq<FuncEntry>>, targetFuncs: seq<seq<FuncEntry>>, host: Mem, s: Target
  )
    requires |vs| == |hs| == |ts|
    requires DeliverFrom(vs, hs, ts, destroyed, funcs, targetFuncs, host, s, 0).Some?
    ensures Arrived(vs, hs, ts, destroyed, funcs, targetFuncs, host, s,
                    DeliverFrom(vs, hs, ts, destroyed, funcs, targetFuncs, host, s, 0).value)
  {
    hide DeliverFrom, BlockOf, Learned, TakesBuffer;
    var s' := DeliverFrom(vs, hs, ts, destroyed, funcs, targetFuncs, host, s, 0).value;
    forall a, j: nat | LastFor(vs, hs, ts, a, j)
      ensures var b := BlockOf(vs[j], hs[j], ts[j]); s'.mem(a) == host(b.from + (a - b.to))
    {
      BytesFrom(vs, hs, ts, destroyed, funcs, targetFuncs, host, s, 0, a);
    }
    forall a | forall j :: 0 <= j < |vs| ==> !Within(BlockOf(vs[j], hs[j], ts[j]), a)
      ensures s'.mem(a) == s.mem(a)
    {
      BytesFrom(vs, hs, ts, destroyed, funcs, targetFuncs, host, s, 0, a);
    }
    GotGrows(vs, hs, ts, destroyed, funcs, targetFuncs, host, s, 0);
    forall j: nat | j < |vs|
      ensures TakesBuffer(vs[j]) ==> Takers(vs, j) < |s.buffers|
      ensures Learned(vs[j], hs[j], destroyed, funcs, targetFuncs,
                      if TakesBuffer(vs[j]) then s.buffers[Takers(vs, j)] else 0, s'.got[|s.got| + j])
    {
      assert s.buffers[0..] == s.buffers;
      LearnedFrom(vs, hs, ts, destroyed, funcs, targetFuncs, host, s, 0, s.buffers, j);
    }
  }

  /** With disjoint places every byte of every variable arrives. */
  lemma EveryByteArrives(
    vs: seq<VarDesc>, hs: seq<HostVar>, ts: seq<TargetVar>, destroyed: seq<nat>,
    funcs: seq<seq<FuncEntry>>, targetFuncs: seq<seq<FuncEntry>>, host: Mem, s: Target, s': Target, j: nat, k: nat
  )
    requires |vs| == |hs| == |ts| && Disjoint(vs, hs, ts)
    requires Arrived(vs, hs, ts, destroyed, funcs, targetFuncs, host, s, s')
    requires j < |vs| && k < BlockOf(vs[j], hs[j], ts[j]).len
    ensures var b := BlockOf(vs[j], hs[j], ts[j]); s'.mem(b.to + k) == host(b.from + k)
  {
    hide BlockOf, Learned;
    var b := BlockOf(vs[j], hs[j], ts[j]);
    assert LastFor(vs, hs, ts, b.to + k, j);
  }
}
