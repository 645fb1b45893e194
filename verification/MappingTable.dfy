/** The per-device host-to-target mapping table: its operations as functions on values. */
module MappingTable {

  /** The host range [begin, end), the device address of begin, and the reference count. */
  datatype Entry = Entry(base: int, begin: int, end: int, tgt: int, rc: int)

  /** The list HostDataToTargetMap (front first) and the device blocks handed out by data_alloc. */
  datatype Mapping = Mapping(table: seq<Entry>, blocks: map<int, nat>)

  /** LONG_MAX >> 1, the count of an entry made by omp_target_associate_ptr. */
  const INF_REF_CNT := 0x3fff_ffff_ffff_ffff

  predicate ConsideredInf(x: int) {
    x > INF_REF_CNT / 2
  }

  // ---------------------------------------------------------------- lookup

  predicate Contained(e: Entry, hp: int, size: nat) {
    e.begin <= hp < e.end && hp + size <= e.end
  }

  predicate ExtendsBefore(e: Entry, hp: int, size: nat) {
    hp < e.begin < hp + size
  }

  predicate ExtendsAfter(e: Entry, hp: int, size: nat) {
    hp < e.end < hp + size
  }

  predicate Hit(e: Entry, hp: int, size: nat) {
    Contained(e, hp, size) || ExtendsBefore(e, hp, size) || ExtendsAfter(e, hp, size)
  }

  /** The entry lookupMapping stops at; |t| when it falls off the list. */
  function FirstHit(t: seq<Entry>, hp: int, size: nat): (k: nat)
    ensures k <= |t|
    ensures k < |t| ==> Hit(t[k], hp, size)
    ensures forall j :: 0 <= j < k ==> !Hit(t[j], hp, size)
  {
    if |t| == 0 || Hit(t[0], hp, size) then 0 else 1 + FirstHit(t[1..], hp, size)
  }

  /** Device address of a host address that is looked up through e. */
  function Translate(e: Entry, hp: int): int {
    e.tgt + (hp - e.begin)
  }

  // ------------------------------------------------------------ operations

  /** What getOrAllocTgtPtr stores into its reference parameter IsNew, if anything. */
  datatype Novelty = Fresh | Existing | Unset

  datatype Obtained = Obtained(m: Mapping, tp: int, isNew: Novelty)

  /** getOrAllocTgtPtr; addr is what data_alloc returns if it is called. */
  function GetOrAlloc(m: Mapping, hp: int, base: int, size: nat, implicit: bool, update: bool, addr: int): Obtained {
    var k := FirstHit(m.table, hp, size);
    if k < |m.table| then
      var e := m.table[k];
      if Contained(e, hp, size) || implicit then
        Obtained(m.(table := m.table[k := e.(rc := e.rc + if update then 1 else 0)]), Translate(e, hp), Existing)
      else
        Obtained(m, 0, Unset)
    else if size != 0 then
      Obtained(Mapping([Entry(base, hp, hp + size, addr, 1)] + m.table, m.blocks[addr := size]), addr, Fresh)
    else
      Obtained(m, 0, Unset)
  }

  datatype Looked = Looked(m: Mapping, tp: int, isLast: bool)

  /** getTgtPtrBegin. */
  function GetTgtPtr(m: Mapping, hp: int, size: nat, update: bool): Looked {
    var k := FirstHit(m.table, hp, size);
    if k < |m.table| then
      var e := m.table[k];
      Looked(if e.rc > 1 && update then m.(table := m.table[k := e.(rc := e.rc - 1)]) else m,
             Translate(e, hp), !(e.rc > 1))
    else
      Looked(m, 0, false)
  }

  datatype Released = Released(m: Mapping, ok: bool)

  function Erase(t: seq<Entry>, k: nat): seq<Entry>
    requires k < |t|
  {
    t[..k] + t[k + 1..]
  }

  /** deallocTgtPtr; erasing an entry also gives its device block back with data_delete. */
  function Dealloc(m: Mapping, hp: int, size: nat, force: bool): Released {
    var k := FirstHit(m.table, hp, size);
    if k < |m.table| then
      var e := m.table[k];
      var rc := (if force then 1 else e.rc) - 1;
      Released(if rc <= 0 then Mapping(Erase(m.table, k), m.blocks - {e.tgt})
               else m.(table := m.table[k := e.(rc := rc)]), true)
    else
      Released(m, false)
  }

  /** Index of the first entry that begins at hp; |t| if there is none. */
  function FirstAt(t: seq<Entry>, hp: int): (k: nat)
    ensures k <= |t|
    ensures k < |t| ==> t[k].begin == hp
    ensures forall j :: 0 <= j < k ==> t[j].begin != hp
  {
    if |t| == 0 || t[0].begin == hp then 0 else 1 + FirstAt(t[1..], hp)
  }

  /** associatePtr: an entry with an infinite count and no block of its own. */
  function Associate(m: Mapping, hp: int, tgt: int, size: nat): Released {
    var k := FirstAt(m.table, hp);
    if k < |m.table| then
      Released(m, m.table[k].end == hp + size && m.table[k].tgt == tgt)
    else
      Released(m.(table := [Entry(hp, hp, hp + size, tgt, INF_REF_CNT)] + m.table), true)
  }

  /** disassociatePtr. */
  function Disassociate(m: Mapping, hp: int): Released {
    var k := FirstAt(m.table, hp);
    if k < |m.table| && ConsideredInf(m.table[k].rc) then
      Released(m.(table := Erase(m.table, k)), true)
    else
      Released(m, false)
  }

  /** getMapEntryRefCnt: the count of the first entry that contains hp, or -1. */
  function RefCnt(t: seq<Entry>, hp: int): int {
    if |t| == 0 then -1
    else if t[0].begin <= hp < t[0].end then t[0].rc
    else RefCnt(t[1..], hp)
  }

  // ------------------------------------------------------------ invariant

  predicate Apart(lo: int, hi: int, lo': int, hi': int) {
    hi <= lo' || hi' <= lo
  }

  function Len(e: Entry): int {
    e.end - e.begin
  }

  /** Two entries share neither host nor device addresses. */
  predicate Separate(e: Entry, f: Entry) {
    Apart(e.begin, e.end, f.begin, f.end) && Apart(e.tgt, e.tgt + Len(e), f.tgt, f.tgt + Len(f))
  }

  ghost predicate ValidTable(t: seq<Entry>) {
    && (forall i :: 0 <= i < |t| ==> t[i].begin < t[i].end && t[i].rc >= 1)
    && (forall i, j {:trigger Separate(t[i], t[j])} :: 0 <= i < j < |t| ==> Separate(t[i], t[j]))
  }

  /** The entry owns the device block it points at, as opposed to an associated one. */
  predicate Owned(m: Mapping, e: Entry) {
    e.tgt in m.blocks
  }

  ghost predicate HasImage(t: seq<Entry>, b: int) {
    exists i :: 0 <= i < |t| && t[i].tgt == b
  }

  /** Every live block is the image of an entry, and of the same size. */
  ghost predicate BlocksMatch(m: Mapping) {
    && (forall b {:trigger HasImage(m.table, b)} :: b in m.blocks ==> HasImage(m.table, b))
    && (forall i {:trigger Owned(m, m.table[i])} ::
          0 <= i < |m.table| && Owned(m, m.table[i]) ==> m.blocks[m.table[i].tgt] == Len(m.table[i]))
  }

  ghost predicate Inv(m: Mapping) {
    ValidTable(m.table) && BlocksMatch(m)
  }

  /** [addr, addr + size) is not part of the device image of any entry. */
  ghost predicate FreeOnDevice(m: Mapping, addr: int, size: nat) {
    forall i :: 0 <= i < |m.table| ==> Apart(addr, addr + size, m.table[i].tgt, m.table[i].tgt + Len(m.table[i]))
  }
}
