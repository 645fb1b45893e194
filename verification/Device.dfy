/** The device object: the mapping methods of DeviceTy, which edit the list in place. */
module Device {
  import opened Memory
  import opened MappingTable

  /** What the runtime remembers about a host pointer whose device copy it has overwritten. */
  datatype Shadow = Shadow(hstVal: Word, tgtAddr: int, tgtVal: Word)

  class HostMemory {
    var bytes: Mem

    constructor (bytes: Mem)
      ensures this.bytes == bytes
    {
      this.bytes := bytes;
    }
  }

  class DeviceTy {
    /** HostDataToTargetMap, front first. */
    var table: seq<Entry>
    /** The blocks obtained from data_alloc and not yet given to data_delete. */
    var blocks: map<int, nat>
    /** Device memory. */
    var mem: Mem
    /** ShadowPtrMap, keyed by the host address of the pointer. */
    var shadow: map<int, Shadow>

    constructor (mem: Mem)
      ensures Mapping() == MappingTable.Mapping([], map[]) && shadow == map[] && this.mem == mem
    {
      table, blocks, shadow := [], map[], map[];
      this.mem := mem;
    }

    function Mapping(): Mapping
      reads this`table, this`blocks
    {
      MappingTable.Mapping(table, blocks)
    }

    method LookupMapping(hp: int, size: nat) returns (entry: nat, contained: bool, before: bool, after: bool)
      ensures entry == FirstHit(table, hp, size)
      ensures if entry < |table| then
                && contained == Contained(table[entry], hp, size)
                && before == ExtendsBefore(table[entry], hp, size)
                && after == ExtendsAfter(table[entry], hp, size)
              else !contained && !before && !after
    {
      entry, contained, before, after := 0, false, false, false;
      while entry < |table|
        invariant entry <= |table|
        invariant forall j :: 0 <= j < entry ==> !Hit(table[j], hp, size)
        invariant !contained && !before && !after
      {
        var e := table[entry];
        contained := hp >= e.begin && hp < e.end && hp + size <= e.end;
        before := hp < e.begin && hp + size > e.begin;
        after := hp < e.end && hp + size > e.end;
        if contained || before || after {
          break;
        }
        entry := entry + 1;
      }
    }

    /** addr is the result of data_alloc, should the method call it. */
    method GetOrAllocTgtPtr(hp: int, base: int, size: nat, implicit: bool, update: bool, addr: int)
      returns (tp: int, isNew: Novelty)
      modifies this`table, this`blocks
      ensures Obtained(Mapping(), tp, isNew) == GetOrAlloc(old(Mapping()), hp, base, size, implicit, update, addr)
    {
      tp, isNew := 0, Unset;
      var k, contained, before, after := LookupMapping(hp, size);
      if contained || ((before || after) && implicit) {
        isNew := Existing;
        if update {
          table := table[k := table[k].(rc := table[k].rc + 1)];
        }
        tp := table[k].tgt + (hp - table[k].begin);
      } else if (before || after) && !implicit {
        // explicit extension of mapped data is refused
      } else if size != 0 {
        isNew := Fresh;
        blocks := blocks[addr := size];
        table := [Entry(base, hp, hp + size, addr, 1)] + table;
        tp := addr;
      }
    }

    method GetTgtPtrBegin(hp: int, size: nat, update: bool) returns (tp: int, isLast: bool)
      modifies this`table
      ensures Looked(Mapping(), tp, isLast) == GetTgtPtr(old(Mapping()), hp, size, update)
    {
      tp := 0;
      var k, contained, before, after := LookupMapping(hp, size);
      if contained || before || after {
        isLast := !(table[k].rc > 1);
        if table[k].rc > 1 && update {
          table := table[k := table[k].(rc := table[k].rc - 1)];
        }
        tp := table[k].tgt + (hp - table[k].begin);
      } else {
        isLast := false;
      }
    }

    method DeallocTgtPtr(hp: int, size: nat, force: bool) returns (ok: bool)
      modifies this`table, this`blocks
      ensures Released(Mapping(), ok) == Dealloc(old(Mapping()), hp, size, force)
    {
      var k, contained, before, after := LookupMapping(hp, size);
      if contained || before || after {
        var e := table[k];
        if force {
          e := e.(rc := 1);
        }
        e := e.(rc := e.rc - 1);
        if e.rc <= 0 {
          blocks := blocks - {e.tgt};
          table := table[..k] + table[k + 1..];
        } else {
          table := table[k := e];
        }
        ok := true;
      } else {
        ok := false;
      }
    }

    method AssociatePtr(hp: int, tgt: int, size: nat) returns (ok: bool)
      modifies this`table
      ensures Released(Mapping(), ok) == Associate(old(Mapping()), hp, tgt, size)
    {
      for k := 0 to |table|
        invariant table == old(table)
        invariant forall j :: 0 <= j < k ==> table[j].begin != hp
      {
        if hp == table[k].begin {
          return table[k].begin == hp && table[k].end == hp + size && table[k].tgt == tgt;
        }
      }
      table := [Entry(hp, hp, hp + size, tgt, INF_REF_CNT)] + table;
      return true;
    }

    method DisassociatePtr(hp: int) returns (ok: bool)
      modifies this`table
      ensures Released(Mapping(), ok) == Disassociate(old(Mapping()), hp)
    {
      for k := 0 to |table|
        invariant table == old(table)
        invariant forall j :: 0 <= j < k ==> table[j].begin != hp
      {
        if hp == table[k].begin {
          if ConsideredInf(table[k].rc) {
            table := table[..k] + table[k + 1..];
            return true;
          }
          break;
        }
      }
      return false;
    }

    method GetMapEntryRefCnt(hp: int) returns (rc: int)
      ensures rc == RefCnt(table, hp)
    {
      rc := -1;
      var k := 0;
      while k < |table|
        invariant k <= |table| && RefCnt(table, hp) == RefCnt(table[k..], hp)
        invariant rc == -1
      {
        if table[k].begin <= hp < table[k].end {
          rc := table[k].rc;
          break;
        }
        k := k + 1;
      }
    }
  }
}
