# Models of the offload runtimes

These Dafny modules model the parts of the OpenMP runtime repository that keep host and device
memory in step, and prove what they promise. Each module follows one piece of the source; code that
edits state in place is a class or a method with loops, specified by a function on values, and the
promises are lemmas about that function.

- **The mapping table of libomptarget** (`MappingTable`, `MappingInvariants`, `MappingThreads`, `Device`).
  A device keeps a list of host ranges with device addresses and reference counts. The operations
  are functions on values (`MappingTable`), a class that edits the list in place (`Device`), and the
  atomic steps of concurrent threads (`MappingThreads`).
- **Data regions** (`TargetData`, `Transfers`, `TableRestored`, `TableGrows`, `DeviceMirror`,
  `HostRestored`, `OffloadMeaning`, `RegionExamples`, `DataRegion`): what `target_data_begin` and
  `target_data_end` do to the table, to both memories and to the shadow pointers, argument by argument
  and byte by byte (`Transfers`), and what a well-nested program of regions and kernels leaves behind:
  on the table (`TableRestored`, `TableGrows`), in host memory when kernels write nothing
  (`DeviceMirror`, `HostRestored`), and as the program sees memory when they do (`OffloadMeaning`).
- **`translate_map`** (`Grouping`, `GroupCover`, `TranslateMap`, `GroupOrder`), what its lists do to a
  data region (`TranslatedRegion`), **`omp_target_memcpy_rect`** (`MemcpyRect`) and **the cache in
  front of the translation tables** (`TableMap`).
- **Array sections** (`Lattice`, `Sections`, `SectionBytes`, `SectionIterator`, `DopeVector`), the
  **copy loop** that drives two iterators of different granularity (`CopyLoop`), and one section
  copied into another (`SectionCopy`). The nested loops of
  `generate_mem_ranges_one_rank` are the reference; `Lattice` holds the arithmetic of nested loops
  and mixed-radix counting that both sides share.
- **The symbol hider** (`CStrings`, `CoffStrings`, `NameSets`, `SymbolHider`, `Linking`,
  `HiddenLinking`): string tables and symbol tables of object files, the closure of required files,
  and why renaming keeps the files linking. Field positions are those of the Microsoft PE/COFF
  specification, sections 5.4.1 and 5.6.
- **The offload host/target protocol**: the copy-in wire format (`Marshal`, `Wire`, `WireRoundTrip`,
  `Arrivals`, `CopyIn`), the persistent stack buffers (`PersistStack`), the ordered set of pointer ranges
  (`PtrSet`), the list of tables (`TableList`) and the variable table (`VarTable`, `VarMerge`).

`Memory` holds what they share: a memory is a function from addresses to bytes.

Where a promise of the source fails, the model keeps the code as it is and two lemmas (or a lemma and
a method) go with it: the first named below gives an input, the second the exact condition under
which the promise holds.

- The list order matters to a lookup that is only partly mapped (`PartialLookupDependsOnOrder`), namely
  when the range touches more than one entry (`OrderIrrelevantIff`).
- `target_data_end` gives back only the pointee of an attached pointer and nothing for a plain member
  (`LonePointerIsNotBalanced`), so the table comes back exactly when their slots and ranges are mapped
  already by a structure (`TableRestoredIffBalanced`). The lists `translate_map` makes see to that
  (`TranslatedRegionIsBalanced`). An empty range may give back another's reference
  (`EmptyRangeGivesBackAnothers`); such a region does not count as granted.
- A begin whose request is refused goes on with a null device address and an IsNew that nobody has set
  (`RefusedRequestReadsUnset`, `RefusedIsSentToNull`).
- A pointer slot that begins before a range that is copied back and ends inside it leaves bytes of the
  device address in host memory (`StraddlingSlotSpoilsHost`). Host memory is kept exactly when every
  byte copied out is mirrored or under a pointer that is restored (`KeptIffMirrored`, for all programs),
  which for granted requests only the bytes under such a slot decide (`KeptIffTailsHarmless`).
- `is_arr_desc_contiguous` answers no for a single element with a stride longer than the section
  (`OverlongStrideIsMisjudged`); it errs exactly on the sections that become contiguous when such
  dimensions are cut down to the one index they reach (`IntervalIffTrimmedContiguous`).
- The section iterator leaves the offset at 0 when no dimension is non-contiguous
  (`ShiftedSectionIsMisread`, `IteratorVisitsSection`), and the dope-vector iterator stops one dimension
  short when there is no gap (`PackedArrayIsCutShort`, `DvIteratorReadsArray`); neither is set up in
  those cases.
- The copy loop steps over the end of a contiguous source when the destination's ranges do not divide
  its size, reads on behind it and fails (`TenBytesIntoRowsOfFour`, `SendNoncontiguous`).
- `translate_map` reads an entry of `combined_to_new_id` before it is assigned
  (`LaterGroupFirst`), namely when of two entries that others join the later is joined first
  (`DeterminedIffRootsInOrder`).
- `omp_target_memcpy_rect` fails for an empty innermost dimension and returns an unassigned variable
  for an empty outer one (`EmptyVolumeFails`, `SucceedsIffPositive`).
- `StringTable::encode` writes the empty name like an index into the table (`EmptyRoundTrip`,
  `RoundTrip`).
- The comment on unterminated string tables promises a final NUL, but the copy that follows
  (`runtime/src/extractExternal.cpp:142`) writes over it (`UnterminatedNameRunsOn`, `TerminatedIff`).
- A name that already starts with the prefix can come to collide with a hidden one
  (`PrefixedNameCollides`, `DependsAfterHiding`), in a removed file too (`KeptFilesStandAlone`).
- `scatter_copyin_data` assigns `c_data_ptr` to `type` where it means to compare
  (`offload/src/offload_target.cpp:465`), so it looks for obsolete stack buffers on every type
  (`StringPtrIsMisread`, `LayoutsAgreeIff`).
- `find_addr` leaves only its inner loop on a hit, so the last table with a hit decides, not the first
  (`LaterTableDecides`); the order of the tables is irrelevant to a name exactly when all that have it
  agree (`OrderIrrelevantIff` of `Marshal`). `find_name` has the same loops.
- `remove_table` leaves the links of the removed node in place, and `add_table` to an empty list does
  not clear them (`ReaddedNodeKeepsItsSuccessor`, `AddTable`).
- A stack buffer that was created but could not be set up ends in no list (`LostBuffer`,
  `EachBufferInOnePlace`).
- An address in two libraries can be answered from the cache after the search would answer otherwise
  (`SharedAddressIsStale`), namely after a library that holds a cached address is registered ahead of
  the one the cache names (`CacheAgreesIff`).

The overlap-as-equal order of pointer ranges is not a strict weak order on overlapping ranges
(`OverlapIsNotTransitive`), but a set that is only changed by its own operations never holds any
(`RunIsLinear`).

## Model

| member | source | states |
|---|---|---|
| Device.DeviceTy.LookupMapping | libomptarget/src/omptarget.cpp:789-822 | stops at the first entry that contains the range or is overlapped by its begin or end, and says which of the three holds |
| Device.DeviceTy.GetOrAllocTgtPtr | libomptarget/src/omptarget.cpp:830-870 | the whole new table, the block allocated, the address and what is stored into IsNew, including refused and zero-size requests that leave it unset |
| Device.DeviceTy.GetTgtPtrBegin | libomptarget/src/omptarget.cpp:875-901 | the lookup at an end: IsLast exactly when the count is not above 1, one reference given up otherwise and only when asked |
| Device.DeviceTy.DeallocTgtPtr | libomptarget/src/omptarget.cpp:917-945 | one reference fewer, or with force none left; the entry and its device block go exactly when the count reaches 0; failure when nothing is mapped |
| Device.DeviceTy.AssociatePtr | libomptarget/src/omptarget.cpp:695-738 | an entry with infinite count in front, or, when an entry begins at the address, success exactly when it is the same association |
| Device.DeviceTy.DisassociatePtr | libomptarget/src/omptarget.cpp:740-765 | removes the first entry that begins there if its count is infinite, and nothing else |
| Device.DeviceTy.GetMapEntryRefCnt | libomptarget/src/omptarget.cpp:768-787 | the count of the first entry that contains the address, or -1 |
| MappingInvariants.StepKeepsInv | libomptarget/src/omptarget.cpp:695-945 | every operation keeps host ranges and device ranges pairwise disjoint, counts at least 1, and each live block the image of exactly one entry of its size |
| MappingInvariants.RunKeepsInv | libomptarget/src/omptarget.cpp:695-945 | hence every reachable table has them |
| MappingInvariants.BlocksAreFreedOnce | libomptarget/src/omptarget.cpp:856-935 | conservation over every run: allocations at an address equal deletions of it, up to the block live now |
| MappingInvariants.EmptyTableHoldsNoBlock | libomptarget/src/omptarget.cpp:917-945 | a table emptied again has given back every block it allocated |
| MappingInvariants.ContainedIsFound | libomptarget/src/omptarget.cpp:789-822 | first-match lookup finds a contained range in the one entry that contains it |
| MappingInvariants.LookupIgnoresOrder | libomptarget/src/omptarget.cpp:789-822 | for contained ranges two lists with the same entries give the same answer |
| MappingInvariants.TranslationIsInjective | libomptarget/src/omptarget.cpp:845-845 | two mapped host bytes have the same device address only if they are the same byte; inside an entry distances are kept |
| MappingInvariants.PartialLookupDependsOnOrder | libomptarget/src/omptarget.cpp:789-822 | a range over two neighbouring entries, whose answer depends on the list order |
| MappingInvariants.OrderIrrelevantIff | libomptarget/src/omptarget.cpp:789-822 | in every valid table every order of the list gives the same entry, or none, if and only if the range touches at most one entry |
| MappingInvariants.AssociationRoundTrip | libomptarget/src/omptarget.cpp:695-765 | an association is ended by disassociation, which restores the table |
| MappingInvariants.AssociationAgain | libomptarget/src/omptarget.cpp:699-722 | a second association at the address succeeds if and only if it is the same, and changes nothing |
| MappingInvariants.AssociationTranslates | libomptarget/src/omptarget.cpp:875-901 | ranges inside an association are on the memory given, and no end takes one for the last |
| MappingInvariants.AssociationLasts | libomptarget/src/omptarget.cpp:740-765 | it can be ended as long as its count has not dropped below 2^61 |
| MappingInvariants.AllocationIsNoAssociation | libomptarget/src/omptarget.cpp:740-765 | an entry that a region has allocated is not disassociated |
| MappingThreads.NextStaysConsistent | libomptarget/src/omptarget.cpp:830-945 | each critical section of any thread keeps counts equal to the regions not fully ended, every such region mapped, and at most one closing region per entry |
| MappingThreads.CountsAreOutstandingRegions | libomptarget/src/omptarget.cpp:830-945 | after any interleaving each count is the number of begins not yet fully ended |
| MappingThreads.DeallocFindsItsEntry | libomptarget/src/omptarget.cpp:917-945 | in any interleaving a deallocation finds its entry and the count it lowers is not negative, so the assertion at line 927 cannot fire |
| MappingThreads.RemovedExactlyByTheLast | libomptarget/src/omptarget.cpp:1852-1876 | in any interleaving an entry disappears in a step if and only if the step is the deallocation of its only remaining region |
| MappingThreads.QuiescentTableIsEmpty | libomptarget/src/omptarget.cpp:1777-1880 | when all regions have ended the table is empty and no device block is left |
| MappingThreads.TwoThreadsShareAnEntry | libomptarget/src/omptarget.cpp:830-945 | such interleavings exist: two threads share an entry and the second end frees the block |
| TargetData.RegionIsBeginBodyEnd | libomptarget/src/omptarget.cpp:1777-1785 | arguments begun in order and ended in reverse order are nested regions, one per argument |
| DataRegion.BeginOne | libomptarget/src/omptarget.cpp:1622-1722 | one round of target_data_begin: slot and object requests, copy to the device, attached pointer and shadow, with the effect that the rows of `Transfers` state |
| DataRegion.TargetDataBegin | libomptarget/src/omptarget.cpp:1619-1724 | the effect of the whole loop on table, device memory and shadows is that of its rounds in order |
| DataRegion.VisitShadows | libomptarget/src/omptarget.cpp:1839-1866 | the shadow loop restores, or forgets, or both, exactly the pointers whose host address lies in the range |
| DataRegion.EndOne | libomptarget/src/omptarget.cpp:1781-1877 | one round of target_data_end: copy back, restored pointers, deallocation, with the effect that the rows of `Transfers` state; failure exactly for a DELETE of a range that is not mapped |
| DataRegion.TargetDataEnd | libomptarget/src/omptarget.cpp:1777-1880 | the effect of the whole loop, last argument first, and failure exactly when a round fails |
| DataRegion.Target | libomptarget/src/omptarget.cpp:2032-2207 | a launch runs begins, kernel and ends as one nested region; if its requests are granted the table comes back in order exactly when the arguments are balanced; around a kernel that changes nothing host memory comes back when no slot straddles a FROM range; and with data shared both ways memory changes as if the kernel had run on the host |
| Transfers.RangeIsSent | libomptarget/src/omptarget.cpp:1679-1705 | the begin of a granted argument: each byte of a TO range is on the device afterwards at its translation if the range was not mapped, or with ALWAYS, or for a member whose parent has one reference; otherwise the device keeps what it had there; the attached pointer aside |
| Transfers.NothingElseIsSent | libomptarget/src/omptarget.cpp:1679-1711 | no other device byte changes, and no host byte |
| Transfers.PointerIsAttached | libomptarget/src/omptarget.cpp:1703-1719 | the attached device pointer lies as far from the device range as the host pointer does from the host range, modulo the width of a pointer, and the shadow holds both |
| Transfers.ReferencesAreTaken | libomptarget/src/omptarget.cpp:1631-1657 | what the begin does to the table: the slot's request, counted unless the argument is a member, then the range's, counted unless it is a plain member |
| Transfers.RefusedIsSentToNull | libomptarget/src/omptarget.cpp:1656-1705 | a request that would extend a mapped range changes no entry, and sends the range to address 0 when an unset variable happens to hold true, or with ALWAYS, or for a member whose parent has one reference |
| Transfers.RangeIsBroughtBack | libomptarget/src/omptarget.cpp:1806-1833 | the end of an argument, for any device memory: each host byte under no restored pointer is the device's at its translation if the argument is FROM and holds the last reference of its entry, or has DELETE or ALWAYS, or is a member whose parent has one reference; otherwise it stays as it was |
| Transfers.PointerIsRestored | libomptarget/src/omptarget.cpp:1839-1861 | a host byte under pointers of a FROM range is that of the last such pointer of the host |
| Transfers.EntryIsGivenUp | libomptarget/src/omptarget.cpp:1794-1874 | what the end does to the table and to the shadows: entry, block and the range's shadows go together, with the last reference or DELETE, but never for a plain member |
| OffloadMeaning.RegionsAreTransparent | libomptarget/src/omptarget.cpp:1619-1876 | for any nested program of regions and kernels whose data is shared both ways, on any sound table: memory as the program sees it, device bytes where mapped and host bytes elsewhere, ends up as if every kernel had run on the host, and the table comes back |
| OffloadMeaning.OffloadingPreservesMeaning | libomptarget/src/omptarget.cpp:1619-1876 | hence, with nothing mapped before, host memory itself does |
| TableRestored.EndUndoesBegin | libomptarget/src/omptarget.cpp:1619-1876 | the end of an accepted argument undoes its begin on the table, list order included |
| TableRestored.RegionsRestoreTable | libomptarget/src/omptarget.cpp:1619-1876 | so does any well-nested program of accepted regions |
| TableRestored.ReferencesNeverShrink | libomptarget/src/omptarget.cpp:1777-1876 | granted regions never leave fewer references than they found, and leave more when one is not balanced |
| TableRestored.AcceptedIsGrantedAndBalanced | libomptarget/src/omptarget.cpp:1636-1664 | the accepted programs are exactly the granted ones whose arguments are balanced |
| TableRestored.TableRestoredIffBalanced | libomptarget/src/omptarget.cpp:1636-1664 | for granted regions the table comes back if and only if every attached pointer belongs to a member of a mapped structure and every member range is mapped already |
| TableGrows.EndGrows | libomptarget/src/omptarget.cpp:1778-1876 | an argument's begin and end around a body that lets the table grow leave every entry found before, with no fewer references |
| TableGrows.ProgGrows | libomptarget/src/omptarget.cpp:1619-1876 | so does every granted program, balanced or not, and the table stays sound |
| DeviceMirror.BeginKeepsMirrors | libomptarget/src/omptarget.cpp:1697-1719 | a range whose device copy mirrors the host keeps doing so through the begin of any other granted argument |
| DeviceMirror.EndKeepsMirrors | libomptarget/src/omptarget.cpp:1839-1876 | and through any end that leaves it mapped |
| HostRestored.RestoreReinstates | libomptarget/src/omptarget.cpp:1839-1866 | restoring with agreeing shadows reinstates exactly the bytes of pointers in the range |
| HostRestored.EndKeepsHostIff | libomptarget/src/omptarget.cpp:1808-1866 | an end keeps every host byte if and only if each byte it copies out is mirrored or lies under a pointer it restores |
| HostRestored.KeptIffMirrored | libomptarget/src/omptarget.cpp:1808-1866 | for every program whatever, host memory is as before after each end if and only if every copy is mirrored or restored |
| HostRestored.CopiedOutOnlyIfCopiedIn | libomptarget/src/omptarget.cpp:1679-1699 | for granted arguments, when FROM is also TO, an argument is copied back only if it was copied in, from the address it was copied to, even if the body let the table grow |
| HostRestored.ProgKeepsMirrors | libomptarget/src/omptarget.cpp:1697-1719 | a mapped range that mirrors the host, attached pointer slots aside, stays so through every granted program that keeps host memory |
| HostRestored.KeptIffTailsHarmless | libomptarget/src/omptarget.cpp:1839-1866 | granted regions keep host memory if and only if, at every copy back, the bytes under pointer slots that begin before the range are as in host memory or restored |
| HostRestored.NoStraddleKeepsHost | libomptarget/src/omptarget.cpp:1808-1866 | which holds when no slot attached within a FROM range's region straddles the beginning of the range |
| HostRestored.RegionsKeepHost | libomptarget/src/omptarget.cpp:1619-1876 | such regions leave every host byte unchanged, standalone attached pointers and plain members included, whether or not the table comes back |
| RegionExamples.StructWithPointer | libomptarget/src/omptarget.cpp:1636-1664 | such regions exist: a structure around an attached pointer member of it |
| RegionExamples.RefusedRequestReadsUnset | libomptarget/src/omptarget.cpp:1656-1705 | a range of which half is mapped, sent to address 0 or not by what an unset variable holds |
| RegionExamples.LonePointerIsNotBalanced | libomptarget/src/omptarget.cpp:1641-1663 | a pointer mapped with its pointee outside of a structure keeps host memory but leaves its entry and block behind |
| RegionExamples.EmptyRangeGivesBackAnothers | libomptarget/src/omptarget.cpp:1798-1801 | an empty range around it takes no reference and gives that one back |
| RegionExamples.StraddlingSlotSpoilsHost | libomptarget/src/omptarget.cpp:1839-1851 | a pointer slot that straddles the beginning of a range copied back leaves a byte of a device address in host memory |
| Grouping.FindGroups | libomptarget/src/omptarget.cpp:1440-1516 | the groups, marks and flags after the scanning loops |
| Grouping.ScanEntry | libomptarget/src/omptarget.cpp:1440-1516 | one round of the outer loop: the scan of earlier entries |
| Grouping.JoinGroup | libomptarget/src/omptarget.cpp:1481-1513 | opening a group for an earlier entry and widening it |
| Grouping.ScanJoins | libomptarget/src/omptarget.cpp:1445-1515 | an entry joins the first earlier entry it shares a base with, and otherwise changes no group |
| Grouping.MarksAndFlags | libomptarget/src/omptarget.cpp:1449-1470 | an entry is marked as a pointer exactly when a later entry is reached through it; a pointee of a pointer loses TO, FROM, ALWAYS and DELETE exactly when it is one itself |
| GroupCover.GroupsArePartition | libomptarget/src/omptarget.cpp:1481-1513 | entries share a group exactly along chains of shared bases, each group was opened by its first member whose base it has, and its range covers every member's own range, or the pointer slot of a pointee |
| GroupCover.GroupsAreTight | libomptarget/src/omptarget.cpp:1481-1513 | each group begins where a member's part does and ends where a member's part does |
| TranslateMap.EmitEntry | libomptarget/src/omptarget.cpp:1530-1595 | one round of the second loop: the combined entry when its turn has come, then the old entry |
| TranslateMap.EmitEntries | libomptarget/src/omptarget.cpp:1525-1595 | the new lists after the second loop |
| TranslateMap.Translate | libomptarget/src/omptarget.cpp:1417-1596 | the announced length and the new lists, given what combined_to_new_id held before |
| TranslateMap.MemberRoundTrip | libomptarget/src/omptarget.cpp:1588-1588 | a member index survives the type word and member_of exactly when it is below 32768 |
| TranslateMap.PositionsIncrease | libomptarget/src/omptarget.cpp:1560-1567 | old entries keep their order |
| TranslateMap.OldEntriesAreKept | libomptarget/src/omptarget.cpp:1562-1594 | every old entry is in the new list with base, begin and size unchanged, and exactly which flags it lost |
| TranslateMap.MembersAreCovered | libomptarget/src/omptarget.cpp:1532-1594 | with groups in creation order every member index decodes to an earlier combined entry, aligned to 8, whose range contains the member or its pointer slot |
| TranslateMap.CombinedIsLeast | libomptarget/src/omptarget.cpp:1536-1555 | a combined entry is the least range that contains what its members bring and begins at a multiple of 8, with the base of its first member and TARGET_PARAM as its only flag |
| TranslateMap.AllGroupsArePlaced | libomptarget/src/omptarget.cpp:1518-1524 | with groups in creation order as many entries are written as were announced |
| TranslateMap.InTimeIffInOrder | libomptarget/src/omptarget.cpp:1532-1533 | every entry finds its combined entry placed exactly when groups first appear in creation order |
| TranslateMap.DeterminedIffInOrder | libomptarget/src/omptarget.cpp:1529-1587 | the new list does not depend on uninitialised memory if and only if groups first appear in creation order |
| TranslateMap.JunkShows | libomptarget/src/omptarget.cpp:1587-1589 | an entry placed before its combined entry takes its member index from uninitialised memory |
| TranslateMap.LaterGroupFirst | libomptarget/src/omptarget.cpp:1483-1497 | two structures with members listed in the opposite order are such a case |
| GroupOrder.NumberedByJoiners | libomptarget/src/omptarget.cpp:1481-1497 | groups are numbered in the order in which the entries that open them are first joined |
| GroupOrder.InOrderIffRootsInOrder | libomptarget/src/omptarget.cpp:1481-1533 | groups first appear in creation order if and only if of two joined entries the earlier is joined first, a condition on the argument list alone |
| GroupOrder.DeterminedIffRootsInOrder | libomptarget/src/omptarget.cpp:1529-1587 | and exactly then the new list does not depend on uninitialised memory |
| GroupOrder.GroupsFollowBases | libomptarget/src/omptarget.cpp:1445-1513 | by bases and flags alone: an entry is in the group of the first entry it shares a base with, and every entry of a group shares a base with another of it |
| TranslatedRegion.AnchoredRegionIsBalanced | libomptarget/src/omptarget.cpp:1636-1664 | a granted region is balanced when each member's slot or range begins within an earlier argument that is no member |
| TranslatedRegion.TranslatedIsAnchored | libomptarget/src/omptarget.cpp:1532-1594 | the entries of a translated list are so placed, when groups are in creation order and every mapped pointer is in one |
| TranslatedRegion.MemberNamesItsGroup | libomptarget/src/omptarget.cpp:1685-1688 | the entry whose count decides about copying a member is the combined entry of its group |
| TranslatedRegion.TranslatedRegionIsBalanced | libomptarget/src/omptarget.cpp:2236-2242 | hence a granted region over a translated list gives back every reference it takes and restores the table |
| MemcpyRect.OffsetIsRowMajor | libomptarget/src/omptarget.cpp:613-622 | the slice arithmetic addresses the element with row-major number offset plus index vector |
| MemcpyRect.SlicesApart | libomptarget/src/omptarget.cpp:620-626 | bytes of different slices have different destination addresses |
| MemcpyRect.TargetMemcpy | libomptarget/src/omptarget.cpp:529-581 | copies the block, and refuses an empty one |
| MemcpyRect.SliceSize | libomptarget/src/omptarget.cpp:613-618 | the bytes of one slice |
| MemcpyRect.SucceedsIffPositive | libomptarget/src/omptarget.cpp:607-636 | success whatever an unassigned result variable holds, if and only if every volume is positive |
| MemcpyRect.EmptyVolumeFails | libomptarget/src/omptarget.cpp:607-636 | an empty innermost dimension fails, an empty outer one returns what the result variable happened to hold |
| MemcpyRect.OmpTargetMemcpyRect | libomptarget/src/omptarget.cpp:583-637 | the entry point with its checks: INT_MAX for two null pointers, failure and no copy for other unusable arguments |
| MemcpyRect.TargetMemcpyRect | libomptarget/src/omptarget.cpp:607-637 | for any rank copies exactly the elements whose index vector lies in the volume, from source to destination offset, and changes no other byte |
| TableMap.Registry.RegisterLib | libomptarget/src/omptarget.cpp:1124-1141 | a table for a library not yet registered, none otherwise |
| TableMap.Registry.FindTable | libomptarget/src/omptarget.cpp:2037-2071 | the cached answer, or the answer of the search, which is then cached |
| TableMap.Registry.UnregisterLib | libomptarget/src/omptarget.cpp:1224-1242 | drops the cached answers for the library's addresses and its table |
| TableMap.StepKeepsValid | libomptarget/src/omptarget.cpp:1224-1242 | registration, launch and unregistration keep every cached answer naming a live table whose entry at that index has that address |
| TableMap.RunKeepsValid | libomptarget/src/omptarget.cpp:1124-1242 | over every run |
| TableMap.CachedIsSearched | libomptarget/src/omptarget.cpp:2037-2071 | after any run, with no address twice in the tables, a lookup answers what the linear search would |
| TableMap.SharedAddressIsStale | libomptarget/src/omptarget.cpp:2037-2071 | with an address in two libraries it may not |
| TableMap.StepAgreesIff | libomptarget/src/omptarget.cpp:1124-1242 | from a state where every lookup answers as the search would, a step leads to another if and only if it is not the registration of a library that holds a cached address ahead of the library the cache names |
| TableMap.CacheAgreesIff | libomptarget/src/omptarget.cpp:2037-2071 | over every run from the start, lookups agree with the search all along if and only if no registration is of that kind |
| Lattice.MixedRadix | offload/src/cean_util.cpp:82-97 | counting through the ranges by one number visits what the nested loops visit, in the same order |
| Lattice.IntervalIffSolid | offload/src/cean_util.cpp:99-119 | nested loops visit an interval exactly when they leave no gap |
| Sections.RangePrinter.GenerateOneRange | offload/src/cean_util.cpp:129-154 | adds the range's bytes to those handed on or pending, extending the pending range when it is adjacent |
| Sections.RangePrinter.GenerateMemRangesOneRank | offload/src/cean_util.cpp:156-197 | adds exactly the section's bytes, in loop order |
| Sections.GenerateMemRanges | offload/src/cean_util.cpp:199-224 | the ranges handed on cover the section's bytes in order and no two of them are adjacent |
| SectionBytes.VisitIsNest | offload/src/cean_util.cpp:156-197 | the bytes of a section are those of its lattice of elements, in the same order |
| SectionBytes.VisitIsOrdered | offload/src/cean_util.cpp:156-197 | every byte once, in ascending order, between the section's corners |
| SectionBytes.ArrDataOffsetAndLength | offload/src/cean_util.cpp:227-261 | exactly the span from the lower corner to the end of the upper corner |
| SectionBytes.IsArrDescContiguous | offload/src/cean_util.cpp:99-119 | answers whether the section is contiguous in the sense of the next two rows |
| SectionBytes.ContiguousIsTheSpan | offload/src/cean_util.cpp:99-119 | a contiguous section is exactly the interval that offset and length describe |
| SectionBytes.ContiguousIffInterval | offload/src/cean_util.cpp:99-119 | for every section: contiguous if and only if it visits an interval and has no strided dimension; the second is not needed when every stride reaches a second element |
| SectionBytes.IntervalIffTrimmedContiguous | offload/src/cean_util.cpp:99-119 | for every section: it visits an interval if and only if it is contiguous once dimensions whose stride reaches one index only are cut down to it |
| SectionBytes.OverlongStrideIsMisjudged | offload/src/cean_util.cpp:104-107 | with such a stride the answer is no for a single element |
| SectionIterator.CeanReadRanges.GetNextRange | offload/src/cean_util.cpp:77-97 | the next range in turn; after the last one it answers false and starts over |
| SectionIterator.FindContiguous | offload/src/cean_util.cpp:21-34 | the innermost dimensions that make one range, and its length |
| SectionIterator.FillDims | offload/src/cean_util.cpp:42-57 | the dimension entries, their number of ranges and the initial offset |
| SectionIterator.InitReadRangesArrDesc | offload/src/cean_util.cpp:17-61 | the iterator for a section, at its start |
| SectionIterator.IteratorVisitsSection | offload/src/cean_util.cpp:17-97 | the ranges read concatenate to exactly the bytes of the nested loops, in order, if and only if some dimension is non-contiguous or the section starts at its lower index |
| SectionIterator.NoncontiguousHasANoncontiguousDim | offload/src/offload_host.cpp:904-907 | which holds for every section an iterator is set up for |
| SectionIterator.ShiftedSectionIsMisread | offload/src/cean_util.cpp:42-57 | the iterator of a contiguous section that begins at its second byte would read other bytes |
| DopeVector.DvIsContiguous | offload/src/dv_util.cpp:13-31 | the flag, or every dimension packed on the one below |
| DopeVector.DvDataLength | offload/src/dv_util.cpp:38-52 | the distance from the first byte to after the last one, in the sense of the next two rows |
| DopeVector.DataLengthIsTheReach | offload/src/dv_util.cpp:38-52 | whatever the multipliers, the array's first byte is at its base and its last element ends that far behind it |
| DopeVector.DataLengthHoldsAll | offload/src/dv_util.cpp:38-52 | if every dimension steps over the ones inside it, all bytes of the array lie in between |
| DopeVector.FindGap | offload/src/dv_util.cpp:73-82 | the first dimension with a gap and the length of the packed part |
| DopeVector.FillDvDims | offload/src/dv_util.cpp:86-91 | the dimension entries from the gap on |
| DopeVector.InitReadRangesDv | offload/src/dv_util.cpp:63-99 | the iterator of a dope vector, none for a scalar; it reads the array's bytes in element order if and only if some dimension is not packed or the last one has one element |
| DopeVector.DvIteratorReadsArray | offload/src/dv_util.cpp:63-99 | it reads exactly the array's bytes in element order if and only if there is a gap or the last dimension has one element |
| DopeVector.NoncontiguousDvHasAGap | offload/src/offload_host.cpp:1312-1316 | which holds for every dope vector an iterator is set up for |
| DopeVector.PackedArrayIsCutShort | offload/src/dv_util.cpp:73-82 | the iterator of a packed array of two elements would read the first only |
| CopyLoop.MatchIffChunkDivides | offload/src/cean_util.cpp:63-73 | ranges match exactly when the chunk of the copy loop divides both |
| CopyLoop.CeanGetTransfSize | offload/src/cean_util.cpp:121-124 | the number of bytes in all ranges of an iterator |
| CopyLoop.FetchRange | offload/src/offload_host.cpp:2321-2327 | the next range of an iterator |
| CopyLoop.TransferChunk | offload/src/offload_host.cpp:2374-2413 | one transfer stores the next chunk's bytes one by one at their places |
| CopyLoop.Round | offload/src/offload_host.cpp:2319-2372 | one round advances both cursors by one chunk, each over its own ranges; a contiguous area counts its length down and may pass zero |
| CopyLoop.SendRanges | offload/src/offload_host.cpp:2317-2417 | the loop has the effect of storing the k-th source byte at the k-th destination place one after the other, and fails exactly when the destination holds fewer bytes |
| CopyLoop.SendNoncontiguous | offload/src/offload_host.cpp:2294-2418 | the same from the variable's iterators and sizes, in any order of places; each byte arrives and no other changes if and only if bytes with a common place are equal; failure exactly when the destination is too small or its ranges step over the end of a contiguous source |
| CopyLoop.DeliveredIffConsistent | offload/src/offload_host.cpp:2374-2413 | bytes stored one by one all end up at their places, nothing else changing, if and only if no two different ones go to the same place |
| SectionCopy.SendSection | offload/src/offload_host.cpp:1509-1558 | descriptors, checks, iterators and loop together: unless a check stops it or it steps over the source's end, the k-th byte of the source section arrives at the k-th byte of the destination section for every k and no other byte changes |
| SectionCopy.TenBytesIntoRowsOfFour | offload/src/offload_host.cpp:2319-2345 | ten contiguous bytes into three rows of four pass the checks and step over the end |
| CoffStrings.StringTable.EncodeName | runtime/src/extractExternal.cpp:208-225 | the eight bytes of a name, or the stop when a long name is missing |
| CoffStrings.StringTable.DecodeName | runtime/src/extractExternal.cpp:230-245 | the name of eight bytes, or the stop when the index is outside |
| CoffStrings.FromStrings | runtime/src/extractExternal.cpp:168-200 | a table that holds every long string of the set where its directory says, with its own size in front; null exactly when too long |
| CoffStrings.Load | runtime/src/extractExternal.cpp:129-145 | the table made of a file's bytes, with whatever byte follows them in memory when they do not end in a NUL |
| CoffStrings.LoadedIsTheFile | runtime/src/extractExternal.cpp:129-145 | a table that ends with a NUL is the file's bytes |
| CoffStrings.TerminatedIff | runtime/src/extractExternal.cpp:134-143 | it ends in a NUL if and only if the file's bytes do or a NUL happens to follow |
| CoffStrings.UnterminatedNameRunsOn | runtime/src/extractExternal.cpp:134-143 | a name that such a table decodes with an extra byte |
| CoffStrings.RoundTrip | runtime/src/extractExternal.cpp:208-245 | a NUL-free name of the set decodes to itself if and only if it is not empty or the size of the table ends in a zero byte |
| CoffStrings.EmptyRoundTrip | runtime/src/extractExternal.cpp:208-215 | the empty name is written as index 0 |
| NameSets.IsDisjoint | runtime/src/extractExternal.cpp:393-408 | true if and only if the two ordered sets have no common element |
| NameSets.InsertAdds | runtime/src/extractExternal.cpp:293-298 | insertion adds exactly the name and keeps the order |
| SymbolHider.CollectNames | runtime/src/extractExternal.cpp:328-345 | the set of the names that will occur, or the stop at a name that cannot be decoded |
| SymbolHider.WriteSymbols | runtime/src/extractExternal.cpp:361-388 | the records with names written under the new table and all else copied |
| SymbolHider.WrittenIsReadBack | runtime/src/extractExternal.cpp:361-390 | symbols written under a table made for their names are read back as they were, exactly when none is empty |
| SymbolHider.HideSymbols | runtime/src/extractExternal.cpp:302-391 | the rewritten file decodes under its new table to the old symbols with the renaming applied and auxiliary entries untouched, exactly when no symbol is left nameless; it stops exactly on an undecodable name or a table too long |
| SymbolHider.SymbolIsHidden | runtime/src/extractExternal.cpp:361-388 | symbol for symbol: one of external storage class with a hidden name gets the prefix, nothing else of any symbol changes |
| Linking.ComputeExternalSymbols | runtime/src/extractExternal.cpp:254-300 | the defined and undefined external names, decoding only those |
| Linking.ExternalNamesOfSymbols | runtime/src/extractExternal.cpp:278-299 | they are the external names of the decoded symbols |
| Linking.DefinedIff | runtime/src/extractExternal.cpp:278-299 | a file defines the names of its external symbols with a section number and needs those without |
| Linking.AddNeeded | runtime/src/extractExternal.cpp:430-439 | adds exactly the external files that one file depends on |
| Linking.FindRequiredExternal | runtime/src/extractExternal.cpp:410-445 | the smallest set of external files closed under dependence from the internal files |
| Linking.RequiredIffReachable | runtime/src/extractExternal.cpp:410-416 | a file is required if and only if a chain of dependences from an internal file ends in it |
| HiddenLinking.CollectHidden | runtime/src/extractExternal.cpp:471-483 | exactly the names that required files define |
| HiddenLinking.SameAfterRenaming | runtime/src/extractExternal.cpp:343-344 | two names are renamed to the same name if and only if they are equal or collide |
| HiddenLinking.DependsAfterHiding | runtime/src/extractExternal.cpp:413-416 | after hiding a file depends on another if and only if it did before or two of their names collide |
| HiddenLinking.CollisionNeedsPrefix | runtime/src/extractExternal.cpp:307-307 | nothing collides unless a name already starts with the prefix |
| HiddenLinking.PrefixedNameCollides | runtime/src/extractExternal.cpp:343-344 | such a name can create a dependence that was not there |
| HiddenLinking.HiddenNamesAreGone | runtime/src/extractExternal.cpp:302-305 | a hidden name is visible afterwards only as the replacement of another |
| HiddenLinking.VisibleAfterRenaming | runtime/src/extractExternal.cpp:278-299 | the external names of renamed symbols are the renamed external names |
| HiddenLinking.NoKeptFileNeedsARemovedOne | runtime/src/extractExternal.cpp:485-492 | no kept file depends on a removed one |
| HiddenLinking.HiddenFileNeedsARemovedOne | runtime/src/extractExternal.cpp:485-495 | once hidden, a kept file depends on a removed one if and only if it needs a hidden name whose replacement the removed one defines |
| HiddenLinking.KeptFilesStandAlone | runtime/src/extractExternal.cpp:485-495 | the same read back from the rewritten files |
| HiddenLinking.KeptFilesStillLink | runtime/src/extractExternal.cpp:485-495 | read back from the rewritten files, dependence between kept files is what it was, but for collisions |
| HiddenLinking.ExtractExternal | runtime/src/extractExternal.cpp:447-497 | a run leaves exactly the internal and the required files, each in its hidden version |
| Marshal.Int64RoundTrip | offload/src/offload_common.cpp:57-79 | a value survives its 64-bit image exactly when it is in range |
| Marshal.FindAddr | offload/src/offload_table.cpp:167-186 | the address of the first entry with the name in the last table that has one, or 0 |
| Marshal.FindName | offload/src/offload_table.cpp:189-208 | likewise the name of an address |
| Marshal.UniqueNameIsFound | offload/src/offload_table.cpp:167-186 | a name with a single address in all tables is found at that address |
| Marshal.LaterTableDecides | offload/src/offload_table.cpp:167-186 | a name in two tables, found at the address of the second |
| Marshal.OrderIrrelevantIff | offload/src/offload_table.cpp:167-186 | the order of the tables is irrelevant to a name if and only if all tables that have it have the same address for it |
| Marshal.NameOfDeciding | offload/src/offload_table.cpp:189-208 | the name found for an address is that of the first entry with it in the last table that has it, and none if no table has it |
| Marshal.FuncArrives | offload/src/offload_common.cpp:81-143 | a function pointer arrives as the target's function of the same name, null as null |
| Marshal.Marshaller.SendData | offload/src/offload_common.cpp:57-67 | appends exactly the bytes |
| Marshal.Marshaller.ReceiveData | offload/src/offload_common.cpp:69-79 | takes exactly the next bytes |
| Marshal.Marshaller.SendFuncPtr | offload/src/offload_common.cpp:81-111 | appends the function's name, or stops when it is in no table |
| Marshal.Marshaller.ReceiveFuncPtr | offload/src/offload_common.cpp:113-143 | takes a name and finds its address, or stops when there is none |
| Wire.LayoutsAgreeIff | offload/src/offload_target.cpp:338-534 | the fields the target reads are those the host writes if and only if sink addresses occur only on pointer and dope-vector-data types and obsolete stacks only on c_data_ptr and in the announced number |
| Wire.StringPtrIsMisread | offload/src/offload_target.cpp:464-476 | for a stack buffer of another pointer type the host writes nothing and the target reads an address |
| WireRoundTrip.ImageHasHostFields | offload/src/offload_host.cpp:2763-2843 | the host's bytes have the width of its fields |
| WireRoundTrip.ReceiveReadsTargetFields | offload/src/offload_target.cpp:325-535 | the target reads as many bytes as its fields are wide |
| WireRoundTrip.VarArrives | offload/src/offload_target.cpp:338-534 | reading what the host sent for a variable has the effect of putting its values straight into their places, and reads exactly its bytes |
| WireRoundTrip.VarsArrive | offload/src/offload_target.cpp:325-535 | so for any list of variables whose layouts agree |
| CopyIn.GatherVar | offload/src/offload_host.cpp:2763-2842 | the bytes sent for one variable |
| CopyIn.GatherCopyinData | offload/src/offload_host.cpp:2759-2843 | the bytes of all variables in order, or the stop at an unknown function |
| CopyIn.MergeVarDescs | offload/src/offload_target.cpp:254-312 | the target's own addresses for the variables it knows, or the stop on a missing or differing type |
| CopyIn.ScatterVar | offload/src/offload_target.cpp:325-535 | what the target does with the bytes of one variable |
| CopyIn.ScatterPointer | offload/src/offload_target.cpp:379-458 | the pointer set from a received address or the next buffer |
| CopyIn.ScatterReleased | offload/src/offload_target.cpp:464-476 | the obsolete buffers released |
| CopyIn.ScatterCopyinData | offload/src/offload_target.cpp:314-535 | what it does with the bytes of all variables |
| CopyIn.CopyIn | offload/src/offload_target.cpp:314-535 | gathering and then scattering puts every value of the host's into its place on the target, in the sense of the next two rows |
| Arrivals.AllArrived | offload/src/offload_target.cpp:314-535 | by descriptors and addresses alone: each byte of a variable is at `into`, or `ptr` without one, plus the displacement of a section or behind the base of a dope vector, unless a later variable overwrites it; no other byte changes; and offset, pointer, released buffers and function of each variable |
| Arrivals.EveryByteArrives | offload/src/offload_target.cpp:481-512 | with disjoint places every byte of every variable arrives |
| PersistStack.StackManager.Sweep | offload/src/offload_host.cpp:575-611 | moves the obsolete leading buffers to the destroy list and says whether the frame's own buffer follows |
| PersistStack.StackManager.Obtain | offload/src/offload_host.cpp:559-687 | the new lists and the buffer used, created or reused, and what a failure leaves |
| PersistStack.ScanTakesTheObsolete | offload/src/offload_host.cpp:575-611 | in an increasing list the scan takes away exactly the buffers of lower frames and of another routine at the same address |
| PersistStack.ReusedIffPresent | offload/src/offload_host.cpp:593-606 | a buffer is reused if and only if the list has one with the same address and routine |
| PersistStack.ListAfterRequest | offload/src/offload_host.cpp:575-687 | a request removes exactly the elements of lower frames and of another routine at its address, and adds at most one of its own with the buffer it answers |
| PersistStack.AnswerIsInTheList | offload/src/offload_host.cpp:615-687 | a request that gets a buffer leaves exactly one element for its address and routine, with that buffer, new exactly when this request has created it |
| PersistStack.SameFrameSameBuffer | offload/src/offload_host.cpp:559-687 | over runs: the same request again answers the same buffer, not new, if and only if no request in between was for a higher frame or for another routine at the address |
| PersistStack.RunKeepsValid | offload/src/offload_host.cpp:559-687 | over every run the list is strictly increasing and every buffer is in exactly one of it, the destroy lists and the lost ones |
| PersistStack.NothingIsLostIff | offload/src/offload_host.cpp:640-677 | over every run, buffers get lost if and only if some request that reused none had one created that could not be set up |
| PersistStack.BufferInOnePlaceIff | offload/src/offload_host.cpp:559-687 | after every run a buffer created is in exactly one of the live list and the destroy lists, or in neither exactly when it was lost |
| PersistStack.EachBufferInOnePlace | offload/src/offload_host.cpp:559-687 | so all of them are in exactly one of the two if and only if no such request occurred |
| PersistStack.LostBuffer | offload/src/offload_host.cpp:646-677 | a buffer whose set-up fails is in neither |
| PtrSet.EqualIffOverlapping | offload/src/offload_engine.h:76-81 | on non-empty ranges equal means overlapping |
| PtrSet.ProbeIffInside | offload/src/offload_engine.h:305-313 | a zero-length probe equals exactly the range that contains its address |
| PtrSet.StrictTotalOrder | offload/src/offload_engine.h:76-81 | on pairwise disjoint non-empty ranges the order is strict and total |
| PtrSet.OverlapIsNotTransitive | offload/src/offload_engine.h:76-81 | on overlapping ranges it is not even transitive |
| PtrSet.LookupIsLinear | offload/src/offload_engine.h:305-313 | the ordered lookup finds the one range that contains the address, if and only if there is one |
| PtrSet.InsertIffNothingOverlaps | offload/src/offload_engine.h:315-330 | insertion succeeds if and only if nothing overlaps, and adds the range and nothing else |
| PtrSet.EraseRemovesTheContaining | offload/src/offload_engine.h:332-336 | removal takes away exactly the range that contains the address |
| PtrSet.RunIsLinear | offload/src/offload_engine.h:305-336 | over every run the ordered set holds what linear searches over an unordered one would |
| PtrSet.Engine.FindPtrData | offload/src/offload_engine.h:305-313 | the range that contains the address |
| PtrSet.Engine.InsertPtrData | offload/src/offload_engine.h:315-330 | the range at hand, and whether it is new |
| PtrSet.Engine.RemovePtrData | offload/src/offload_engine.h:332-336 | the set without the range that contains the address |
| TableList.List.AddTable | offload/src/offload_table.h:37-47 | adds the node at the front; the list is well linked afterwards if and only if the node came without a predecessor and, for an empty list, without a successor |
| TableList.List.RemoveTable | offload/src/offload_table.h:49-63 | takes exactly that node out of a well-linked list, and leaves the node's own links as they are |
| TableList.ReaddedNodeKeepsItsSuccessor | offload/src/offload_table.h:37-63 | so a removed node can break an empty list it is added to again |
| VarTable.VarIterator.constructor | offload/src/offload_table.h:168-172 | starts before the first used slot of the tables in list order |
| VarTable.VarIterator.NewNode | offload/src/offload_table.h:200-214 | moves to the first used slot from a table on |
| VarTable.VarIterator.Next | offload/src/offload_table.h:174-185 | moves on by exactly one used slot |
| VarTable.Iterate | offload/src/offload_table.h:164-227 | running to the end yields the variables in list order |
| VarTable.EverySlotIsListed | offload/src/offload_table.h:164-227 | the variables are the slots with a name and no others, each behind those of earlier tables and slots |
| VarTable.TableSize | offload/src/offload_table.cpp:288-306 | the number of variables and the size of their image |
| VarTable.TableCopy | offload/src/offload_table.cpp:309-332 | fills exactly the bytes of table_size with the image |
| VarTable.TablePatchNames | offload/src/offload_table.cpp:335-341 | turns the image for base 0 into the image for the buffer's base |
| VarTable.ReadBack | offload/src/offload_table.cpp:309-341 | read at any base the patched buffer gives every variable, in list order |
| VarMerge.MergeTables | offload/src/offload_engine.cpp:320-351 | pairs exactly the names present in both sorted tables, each once, in order |

## Left out

- Device.DeviceTy.GetOrAllocTgtPtr: a failing `data_alloc` is not modelled; its answer is a parameter and is taken to be unused device memory.
- DataRegion.BeginOne: the return value for RETURN_PARAM (`libomptarget/src/omptarget.cpp:1666-1677`) is not modelled; `data_submit` always succeeds.
- DataRegion.TargetDataBegin: inherits both omissions from its rounds, so it has no failure result.
- DataRegion.EndOne: `data_retrieve` and `data_delete` always succeed.
- DataRegion.TargetDataEnd: inherits that from its rounds.
- DataRegion.VisitShadows: the source erases from the map while it iterates over it; the model visits the keys in the range in ascending order.
- HostRestored.RegionsKeepHost: kernels are those that change no device byte, so FROM comes with TO: without it a range is copied back that was never copied in, which only `KeptIffMirrored` covers. A member copied back needs its structure mapped before, or a body that gives back what it takes. Private and literal arguments are skipped, as in the source; the private arrays of `target` are not modelled.
- MappingThreads.RemovedExactlyByTheLast: threads without DELETE, and ranges inside one entry; counting through a partly mapped implicit request is outside of it.
- DataRegion.Target: the failure path of `target` after a rejected begin is not modelled; a kernel is a list of assignments to bytes, found on the device where the table places them.
- OffloadMeaning.RegionsAreTransparent: without attached pointers and struct members, whose device bytes are meant to differ; an argument that maps memory itself is TO and FROM, one inside a mapped range anything but ALWAYS or DELETE. With TO or FROM alone the result is meant to differ from that on the host.
- MemcpyRect.TargetMemcpy: devices that are not ready and transfers that fail are not modelled.
- MemcpyRect.OmpTargetMemcpyRect: the null tests of the four array arguments are not modelled; the arrays are sequences.
- MemcpyRect.TargetMemcpyRect: destination and source memories are separate values, so a copy between overlapping arrays of one device is not modelled.
- TranslateMap.MembersAreCovered: what a group's first member brings is, for a MAP_PTR entry, the range of its size at its base, as at line 1491, not its pointer slot; the assertion on the size of a pointer at line 1456 is not needed.
- TranslateMap.Translate: `cleanup_map` undoes it only when no combined entry is inserted after an old one, and is not modelled. Old types have no bits above the nine named flags.
- TranslatedRegion.TranslatedRegionIsBalanced: lists of at most 32768 entries, as member indices do not fit their field beyond (`MemberRoundTrip`), and pointees that are not empty, as an empty one opens a group that does not hold its slot.
- TableMap.CachedIsSearched: the identity of a translation table is a fresh number; the tables of the targets and image loading are not modelled.
- Sections.RangePrinter.GenerateMemRangesOneRank: indices and addresses do not wrap around; sections are well formed (extents nest, bounds inside the extent, stride at least 1).
- SectionIterator.InitReadRangesArrDesc: allocation sizes of the iterator are not modelled.
- CopyLoop.SendNoncontiguous: buffers are byte memories, transfers happen at once and succeed; the receiving side, whose contiguous source starts at 0 rather than at its displacement, is not modelled.
- SectionCopy.SendSection: both sides are array descriptors; two contiguous ones, which the runtime copies at once, are outside of it.
- CoffStrings.StringTable.DecodeName: a name that is not terminated ends with the table, where the source reads on in memory.
- SymbolHider.HideSymbols: an object file is its header, its records and its string table; streams, seeking and end-of-file errors are not modelled, the number of auxiliary entries is below 128 and they fit into the table.
- CoffStrings.FromStrings: the directory of a table read from a file (`makeDirectory`) is never used by the program and is not modelled; the Windows variant of the string copy is not.
- HiddenLinking.ExtractExternal: files already rewritten or removed when a later one makes the program stop are not modelled.
- Wire.LayoutsAgreeIff: fields are symbols; their bytes are tied to them by width, and by `VarArrives`.
- WireRoundTrip.ImageHasHostFields: the field of a function pointer has no fixed width, so these variables are left to `VarArrives`, which covers all.
- WireRoundTrip.ReceiveReadsTargetFields: likewise, and for `c_cean_var`, whose width is read from the stream.
- CopyIn.GatherCopyinData: raw buffer sizes are a precondition; `c_data_ptr_array` carries no bytes and its effect on later descriptors is not modelled.
- CopyIn.ScatterVar: where the pointer is stored, buffer reference counts and the release of buffers are not modelled; reading past the end of the buffer, which the source does not notice, ends in None.
- CopyIn.ScatterPointer: which of the variable's pointers is stored to, or which dope vector, is not modelled.
- CopyIn.ScatterReleased: the buffers to release are read; the release is not modelled.
- CopyIn.ScatterCopyinData: inherits the omissions of `ScatterVar`.
- CopyIn.CopyIn: likewise; pointers are delivered as values, not into memory.
- Arrivals.AllArrived: likewise.
- PersistStack.StackManager.Obtain: creating and initialising the buffer is one of three outcomes; locks and trace output are left out.
- PtrSet.Engine.InsertPtrData: what is stored with a range besides its bounds is not modelled; inserted ranges are not empty.
- VarMerge.MergeTables: sorting is the library's; entries it merges go into the set of `PtrSet` in the source, which the model leaves to that module; names are unique.
- VarTable.TableCopy: tables end where their sequence ends instead of at a name of -1; `max_name_length` is not modelled.
- Integer widths, pointer wrap-around and allocation failure are not modelled except where a row says so.
- COI, MYO, ORSL, plugin loading, timers, reports, environment variables, the wrapper functions and the setup of descriptors (`setup_descriptors`) are not part of this model.
