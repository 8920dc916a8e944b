# Minidump and memory-dump drivers: a verified model

These Dafny modules model the stateful parts of the Qualcomm minidump and memory-dump-v2 kernel
drivers and prove what their interlocking tables promise.

* **The region registry** (`minidump/msm_minidump.c`). One list of memory regions is kept six times:
  a local table, the bootloader's SMEM table, ELF program headers, ELF section headers, a packed
  string table, and running totals. `ElfImage` says what the ELF image of a list of regions is
  (`Render`), following the program-header, section-header and string-table chapters of the System V
  gABI, and `ElfFields` reads it word by word. `ElfMemory` is the allocation it lives in, word by
  word: what each header operation stores, wherever that lands, and when it is what the operation
  does to the image. `Registry` says what the two tables of a list are (`Tables`), and what the
  whole registry state is (`Canon`). `ElfHeaders` and `MinidumpDriver` are the driver's code on
  arrays that change in place, proved equal to the value-level operations, failures included.
  `RegistryLaws` proves what each operation does. `TableRuns` follows the two tables through any
  run, whatever updates have done to the ELF headers and however many regions there are: the header
  counts alone keep every operation in bounds. `ElfShapes` is what updates leave of the image.
  `RegistryRuns` follows all six through the runs that keep them in step. Every store the bootloader
  could see is recorded, and `WatchedRuns` proves what it finds, from the first store of the probe
  to the last of a run. `Layout` proves where the parts of the header allocation lie and when they
  overlap.
* **The resource-manager back end** (`RmProtocol`, `RmLaws`, `RmSlots`, `RmEarly`). Client calls,
  the worker's two critical sections a request, and the replies of the resource manager are
  interleaved steps; an invariant over all interleavings gives the order of the table, the ownership
  of slots, and the unreachability of the driver's "table is corrupt" reports. `RmSlots` follows
  requests and slots: every accepted request is carried out once and in order, and a slot is lost
  only by a denied release.
* **The register-dump buffer** (`memory_dump_v2/memory_dump_v2.c`). `RegDump` is the encoding and
  the reader, `RegDumpGuards` the 32-bit space checks against unbounded arithmetic, `RegDumpBits`
  the encoding in bits, `RegDumpTables` the driver's buffer and counters in place. `SprDump` is the
  smaller per-core builder, `MemLayout` the two-pass layout of the whole dump area.
* **The page-owner dump** (`PageOwner`, from `minidump/minidump_memory.c`): text growing from the
  front of a buffer towards a handle table at its back, modelled as the same bytes.
* **Resizing a dump** (`Resize`) and **registering vmalloc memory by pages** (`VmapPieces`), both on
  top of the registry.

`Kernel`, `Regions` and `Sequences` hold the shared vocabulary. `dafny verify dfyconfig.toml`
checks everything. `MAX_NUM_ENTRIES` is a symbolic capacity of at least 17.

Where a promised property fails for some inputs, the theorem says for which: it is stated as an
if-and-only-if with a condition a caller can look at, and `Witnesses` has a reachable input for it.

* A removal is refused, after both tables have already been closed over the region, exactly when
  the region was pending at probe or the ELF search misses it: for a positive size, when the request
  does not carry its addresses and size, or an earlier region has the same physical span
  (`RemoveExact`, `RemoveSized`; `TwinCannotBeRemoved`). Among empty regions a removal may also take
  one region's section and another's program header; it leaves the image of the remaining list
  exactly when it is `Clean` (`CleanExact`).
* A name registered twice before probe cannot be removed, and the attempt leaves the two tables
  holding different regions (`RemoveDuplicate`; `DuplicateSplitsTables`).
* Removal requests are not validated, so that one can spell out the banner section
  (`RemoveUnvalidated`; `BannerCanBeRemoved`).
* A refused update still patches ELF headers; it goes unnoticed exactly when the handle has no
  headers or the addresses agree, and, for the last four handles, when their stores change nothing
  where they land (`RefusedUpdateExact`; `RefusedUpdateShows`). With regions pending at probe, an
  accepted update patches the headers of another region (`PendingUpdateExact`;
  `PendingUpdateHitsAnother`). A handle no add has returned is accepted as well
  (`UnknownHandleExact`), and the last one of them stores behind the bootloader's table
  (`UpdateBoundsExact`; `LastHandleOverruns`).
* The section headers have `MAX_NUM_ENTRIES` places. The sections of the last four handles lie in
  the program headers: the stores of an update reach the banner's virtual address, the first
  region's physical address, the second's size in the file or the third's size in memory, and for
  the last handle also two names in the string table (`UpdateHeaderInvisible`, `PatchImage`;
  `LastHandleBreaksRemoval`, `LateHandleHitsBanner`).
* For the same reason no memory holds the image of more than `MAX_NUM_ENTRIES - 4` regions, while
  the registry accepts up to `MAX_NUM_ENTRIES - 1` (`SoundIff`, `GuardExceedsLayout`,
  `DepictsPlaced`, `AddExact`, `FirstOverrun`, `OverrunNotUndone`; `LayoutOverrun`). Tables, handles and bounds do not
  depend on it; statements about the image carry the condition. Before probe the registry accepts
  `MAX_NUM_ENTRIES`, one more than the drain has cells for (`DrainBoundExact`).
* In resource-manager mode an add between the drain of the pending list and the end of the probe is
  answered with a position and lost (`WindowExact`; `LostInTheWindow`).
* In resource-manager mode a slot is lost exactly when the resource manager has denied its release; the
  next removal of its region then does nothing (`SlotsStayHome`; `DeniedSlotIsLost`).
* In resource-manager mode `md_get_region` swaps the two addresses (`GetRegionSwaps`;
  `SwappedLookup`).
* A block read at register offset 0 is stored but never shown (`ShowExact`; `ZeroBlockIsLost`).
* The table-size check wraps from `0x7FFFFFFD` per-core registers on (`TableGuardExact`,
  `TableGuardWraps`), and the SPR check at one register count, which only buffers above `0xFFFFFFFC`
  bytes reach (`SprGuardExact`; `GuardsWrap`).
* The page-owner dump emits an unfounded short record exactly when a record starts on the first
  byte of the handle table with a new handle that is the first stored one with its low byte
  cleared, which the handles and lengths of the records tell beforehand (`RunExact`,
  `SoundForeseen`; `UnsoundDump`).
* A dump whose registration failed at boot keeps a nonzero size without a region and never changes
  again (`Update`).
* `mem_dump_alloc` returns the answer about its last node. It is wrong exactly when that node was
  laid out and an earlier one was passed over without filling the table (`LastAnswerExact`;
  `MissedNode`).
* The pages of two key modules are all registered exactly when what each common piece number leaves of
  their names differs (`TwoModules`, `NamesMeet`; `ModulesCollide`).
* The physical address of a vmalloc piece is that of its page; for the first piece of a range it is
  right exactly when the range starts on a page boundary (`PieceAt`; `UnalignedPiece`).

## Model

| member | source | states |
|---|---|---|
| ElfImage.NameInTable | minidump/msm_minidump.c:89-103 | every section name index points at that section's own NUL-terminated name in the packed table |
| ElfImage.TableAdd | minidump/msm_minidump.c:89-103 | one more name written at the running index extends the packed table by exactly that name and advances the index past its NUL |
| ElfImage.NamesBound | minidump/msm_minidump.c:89-103 | with n regions the string index is at most 37 + 13 n |
| ElfImage.AddHeaderRenders | minidump/msm_minidump.c:188-209 | adding headers for a region takes the image of any list to the image of the list with it, in bounds |
| ElfImage.UpdateHeaderRenders | minidump/msm_minidump.c:211-223 | while the sections have their places, patching the handle of a live region takes the image of a list to the image with it readdressed |
| ElfImage.UpdateHeaderInvisible | minidump/msm_minidump.c:211-223 | patching handle i leaves the image alone if and only if i has no headers or the addresses agree and, for the last four handles, the fields of other headers and the bytes of the string table where its stores land hold the requested addresses already |
| ElfImage.PayloadsTile | minidump/msm_minidump.c:188-209 | payloads start at the end of the header, follow one another without gap or overlap, and end at the running offset; each section names its own region |
| ElfImage.FindPhdrRendered | minidump/msm_minidump.c:234-241 | the program-header search hits the first region of the same physical span, never the banner |
| ElfImage.FindShdrRendered | minidump/msm_minidump.c:246-258 | the section search hits the region of that name if address and size agree, never a fixed section |
| ElfImage.ClearHeadersExact | minidump/msm_minidump.c:225-299 | a positive-size region is cleared if and only if the request is current and its span is the first of its kind; the image is then that of the list without it, and otherwise unchanged |
| ElfImage.ClearHeadersAbsent | minidump/msm_minidump.c:225-299 | a name that is not in the list is refused without a trace |
| ElfImage.RefusedExact | minidump/msm_minidump.c:225-299 | for any sizes: when a clear is refused, and which two headers it erases when it is not |
| ElfImage.CleanExact | minidump/msm_minidump.c:225-299 | for any sizes: a clear leaves the image of the list without the region if and only if every region from the first of the requested span up to it is, like itself, empty and at the same addresses |
| ElfImage.SizedIsTidy | minidump/msm_minidump.c:234-266 | with a positive size a clear is refused or clean, and clean if and only if the request is current and no earlier region has the span |
| ElfImage.TableDrop | minidump/msm_minidump.c:267-283 | the memmove and memset in the string table leave the packed table of the remaining names |
| ElfImage.DropRenders | minidump/msm_minidump.c:260-298 | closing both header arrays, rebasing offsets and name indices and closing the string table leave the image of the list without the region |
| ElfMemory.NewHeaderDepicts | minidump/msm_minidump.c:825-942 | the header that probe builds holds the image of the empty list |
| ElfMemory.AddImage | minidump/msm_minidump.c:188-209 | while both headers have a place, the stores of an add are what an add is to the image |
| ElfMemory.PatchImage | minidump/msm_minidump.c:211-223 | the stores of an update, wherever they land: in a header of its own, in a field of another, in the string table |
| ElfMemory.ClearImage | minidump/msm_minidump.c:225-299 | while every section has a place, the copying loops of a clear are what a clear is to the image |
| ElfMemory.DepictsPlaced | minidump/msm_minidump.c:868-871 | no content of the allocation is the image of more than MAX_NUM_ENTRIES - 4 regions |
| ElfMemory.AddDepicts | minidump/msm_minidump.c:188-209 | an add makes the image of the longer list if and only if its sections have their places |
| ElfMemory.AddCounted | minidump/msm_minidump.c:188-209 | fewer than MAX_NUM_ENTRIES regions: an add stays in the allocation, whatever the headers hold |
| ElfMemory.ClearCounted | minidump/msm_minidump.c:225-299 | a clear moves nothing outside the string table, whatever the headers hold |
| ElfMemory.ClearKeepsCounted | minidump/msm_minidump.c:225-299 | a successful clear takes one region off the header counts and its name off the string index, whatever the headers hold |
| ElfFields.RegionWords | minidump/msm_minidump.c:188-209 | word by word and in numbers: both headers of every region are loadable and writable, at its addresses, with its size and name and the file offset behind the header and all earlier payloads |
| ElfFields.FixedWords | minidump/msm_minidump.c:868-941 | the same for the fixed headers: the string table lies where its section says, and the banner behind it |
| ElfShapes.ClearShape | minidump/msm_minidump.c:225-299 | whatever addresses updates have patched in, a clear hits the region of its name or refuses, in bounds, and keeps the shape of the image |
| ElfShapes.UpdateShape | minidump/msm_minidump.c:211-223 | an update keeps the shape of the image unless it is one of the last four handles and changes a size, the banner or the string table there |
| ElfShapes.UnvalidatedClear | minidump/msm_minidump.c:225-266 | a request no region could satisfy is refused unless it spells out the banner |
| ElfHeaders.ElfHeader.constructor | minidump/msm_minidump.c:825-942 | the allocation that probe builds, store by store, holds the image of the empty list |
| ElfHeaders.ElfHeader.SetSectionName | minidump/msm_minidump.c:89-103 | in place: the name and its NUL at the running index, which is returned and advanced |
| ElfHeaders.ElfHeader.AddHeader | minidump/msm_minidump.c:188-209 | the stores of both headers and the name, in the one allocation, wherever they land |
| ElfHeaders.ElfHeader.UpdateHeader | minidump/msm_minidump.c:211-223 | the three stores of an update, for any handle below MAX_NUM_ENTRIES |
| ElfHeaders.ElfHeader.ClearHeaders | minidump/msm_minidump.c:225-299 | the searches, the memmove and the copying and rebasing loops, word by word, equal the value-level operation, refusals included |
| RegistryLaws.AddKeepsOrder | minidump/msm_minidump.c:651-717 | an add is accepted if and only if the region is valid, a cell is left and the name is new, whatever the headers hold; it then returns its position and extends both tables and the header counts, otherwise nothing changes |
| RegistryLaws.AddKeepsCanon | minidump/msm_minidump.c:651-717 | an accepted add extends the ELF image too if and only if its sections still have their places |
| RegistryLaws.UpdateKeepsCanon | minidump/msm_minidump.c:577-602 | with nothing pending at probe, an accepted update changes exactly the records of its own region in every table |
| RegistryLaws.RefusedUpdateExact | minidump/msm_minidump.c:626-648 | the exact condition under which a refused update does nothing to the ELF headers, with any regions pending at probe and any handle |
| RegistryLaws.PendingUpdateExact | minidump/msm_minidump.c:626-648 | with regions pending at probe, the exact condition under which an accepted update keeps the tables consistent, the last four handles included |
| RegistryLaws.UpdateKeepsTables | minidump/msm_minidump.c:577-602 | both tables follow any update by a returned handle, whatever the ELF image holds, and it is accepted if and only if the handle is not disowned and the name is registered |
| RegistryLaws.UnknownHandleExact | minidump/msm_minidump.c:577-602 | what an accepted update by a handle no add returned changes, and exactly when that does not show |
| RegistryLaws.UpdateBoundsExact | minidump/msm_minidump.c:577-602 | an update leaves the bootloader's table if and only if it is valid, comes with the last handle, that is not disowned, and names a live region |
| RegistryLaws.RegionNumRendered | minidump/msm_minidump.c:145-159 | the scan finds a name if and only if it occurs, and returns its highest sequence number |
| RegistryLaws.AddTocRenders | minidump/msm_minidump.c:478-500 | the cell an add fills makes the bootloader's table that of the longer list, also for a duplicate name |
| RegistryLaws.DropTocRenders | minidump/msm_minidump.c:766-778 | closing the bootloader's table over a cell and zeroing the last leaves the table of the list without the region |
| RegistryLaws.KeysUnique | minidump/msm_minidump.c:145-159 | (name, sequence number) is unique over the counted cells, all of them marked valid |
| RegistryLaws.CellTells | minidump/msm_minidump.c:478-500 | what the bootloader reads of any region: its name, the number of earlier cells of that name, the mark VALI, its physical address and size |
| RegistryLaws.SmemAnswers | minidump/msm_minidump.c:563-717 | every answer of an add and an update, in numbers and in the order of the checks |
| RegistryLaws.RemoveExact | minidump/msm_minidump.c:742-789 | a removal returns 0 if and only if the region has headers and the ELF search does not refuse; the tables then render the rest, the image too if and only if the clear was clean; otherwise the bootloader's table stays off |
| RegistryLaws.RemoveSized | minidump/msm_minidump.c:742-789 | for a positive size it returns 0 if and only if the request is current and no earlier region has its span, and all tables then render the rest |
| RegistryLaws.RemoveKeepsTables | minidump/msm_minidump.c:766-786 | both tables after a removal, successful or refused, for any ELF image; the mark is then the position of the removal or, if that is lower, where it was |
| RegistryLaws.RemoveUnvalidated | minidump/msm_minidump.c:742-789 | a request no region could satisfy is refused unless it spells out the banner |
| RegistryLaws.RemoveDuplicate | minidump/msm_minidump.c:742-786 | for a name pending twice the local table loses its first entry and the bootloader's its last cell, and the removal fails |
| RegistryLaws.RemoveAbsent | minidump/msm_minidump.c:751-756 | removing a name that is not registered changes nothing |
| TableRuns.StepKeepsTables | minidump/msm_minidump.c:577-822 | any add, any update by a returned handle, and any removal that does not fail keep both tables rendering the users' list, for any sizes and any pending list |
| TableRuns.RunKeepsTables | minidump/msm_minidump.c:577-822 | the same for any run; the lowest removed position never rises |
| TableRuns.KeysUniqueInRuns | minidump/msm_minidump.c:145-159 | in every run (name, sequence number) is unique over the counted cells, all marked valid, and vacated cells are zero |
| TableRuns.HandleStable | minidump/msm_minidump.c:577-602 | over any run a handle below the lowest removed position still names the region it was returned for, untouched but for updates by that handle |
| TableRuns.MarkExact | minidump/msm_minidump.c:765-766 | over any run the mark ends at the lowest position a removal was made at, or where it was if that is lower |
| TableRuns.HandleAccepted | minidump/msm_minidump.c:577-602 | a valid update of its own name by a handle is accepted after any run if and only if the handle was below the mark and below every position removed since |
| RegistryRuns.HandleFromBoot | minidump/msm_minidump.c:577-602 | from boot on, the handle of a pending region is accepted if and only if no removal has been made at or below it |
| TableRuns.MarkStaysWithin | minidump/msm_minidump.c:764-786 | once a removal has happened the mark never exceeds the number of regions |
| TableRuns.LateRegionNeverUpdates | minidump/msm_minidump.c:577-586 | a region added after a removal can never be updated |
| TableRuns.HandleStaysKnown | minidump/msm_minidump.c:577-602 | a handle an add returned stays live, or is disowned by a removal |
| TableRuns.StepInBounds | minidump/msm_minidump.c:188-299 | every requested operation stays inside its tables and the header allocation, whatever the headers hold and however many regions there are; the header counts are kept |
| TableRuns.RunInBounds | minidump/msm_minidump.c:577-822 | so does every run of requests in which no removal fails: bounds are not asked for |
| TableRuns.StepKeepsShape | minidump/msm_minidump.c:577-822 | a step keeps names, sizes and file offsets of the image if and only if it is not an add past the layout bound nor an update by one of the last four handles that shows there |
| TableRuns.RunKeepsShape | minidump/msm_minidump.c:577-822 | the same over any run of such steps |
| WatchedRuns.Run | minidump/msm_minidump.c:478-789 | after every store of a run in which no removal fails, a bootloader that finds the table on finds the list at some point of the run, complete, and never an earlier point than before |
| WatchedRuns.BootAndRun | minidump/msm_minidump.c:478-1062 | the same from the first store of the probe on, any regions pending: the table is off for four stores, then the header and a growing prefix of the pending regions, then the lists of the run |
| RegistryRuns.AddExact | minidump/msm_minidump.c:651-717 | an add keeps the image in step if and only if it is refused or leaves the sections their places |
| RegistryRuns.UpdateExact | minidump/msm_minidump.c:626-648 | an update, accepted or refused, with any regions pending and any handle, keeps the image in step with the tables if and only if it is clean |
| RegistryRuns.StepKeepsCanon | minidump/msm_minidump.c:577-822 | every clean step is in bounds and takes the state of a list to the state of the list after it |
| RegistryRuns.RunKeepsCanon | minidump/msm_minidump.c:577-822 | the same for any run of clean steps, for any sizes and any regions pending at probe |
| RegistryRuns.SizedRunIsClean | minidump/msm_minidump.c:577-822 | with nothing pending, every run of adds within the layout bound, accepted updates and successful removals of regions that are not empty is clean |
| RegistryRuns.SizedRunEqualsRebuild | minidump/msm_minidump.c:577-822 | so after every such run every table, the ELF image and the totals equal those of adding the survivors from scratch in order |
| RegistryRuns.RunEqualsRebuild | minidump/msm_minidump.c:577-822 | the same after any clean run, for any sizes and refused updates |
| RegistryRuns.PayloadsDisjoint | minidump/msm_minidump.c:188-209 | in every such state the payload intervals of different regions do not overlap |
| RegistryRuns.DrainRenders | minidump/msm_minidump.c:1036-1062 | draining the pending list leaves both tables rendering it, and no ELF header, duplicates included |
| RegistryRuns.AddsAreAccepted | minidump/msm_minidump.c:651-717 | distinct valid regions that fit are all accepted and return their positions |
| RegistryRuns.EarlyRegistration | minidump/msm_minidump.c:698-711 | registering before probe and draining gives the handles and both tables of registering after it, up to the capacity; the ELF half lacks exactly the pending regions |
| RegistryRuns.DrainBoundExact | minidump/msm_minidump.c:663-711 | before probe any valid regions up to the capacity are accepted, and the drain is in bounds if and only if there are fewer |
| RegistryRuns.PendingAnswers | minidump/msm_minidump.c:651-717 | every answer before probe, in numbers: names are not compared |
| MinidumpDriver.Minidump.Probe | minidump/msm_minidump.c:1028-1062 | the probe leaves the drained state; every store is recorded, four of them before the table is on; the first list found has one record, that of the header allocation with its physical address and size; from then on the bootloader finds that and the first of the pending regions, never fewer than before |
| MinidumpDriver.Minidump.RegionNum | minidump/msm_minidump.c:145-159 | the loop computes the last match and the highest sequence number |
| MinidumpDriver.Minidump.EntryNum | minidump/msm_minidump.c:161-172 | the loop computes the first match |
| MinidumpDriver.Minidump.AddSsToc | minidump/msm_minidump.c:478-500 | the new cell in both tables; five or six recorded stores, the counted cells being the old list up to the last of them and the new list after it |
| MinidumpDriver.Minidump.AddRegion | minidump/msm_minidump.c:651-717 | equals the value-level add with every answer; the exact number of recorded stores, the bootloader seeing the old list until the last |
| MinidumpDriver.Minidump.UpdateRegion | minidump/msm_minidump.c:626-648 | equals the value-level update with every answer and any handle that stays in bounds, headers patched whatever the answer; one recorded store if accepted |
| MinidumpDriver.Minidump.RemoveRegion | minidump/msm_minidump.c:742-789 | equals the value-level removal with every answer; the exact number of recorded stores, the table being off while cells move, so that the bootloader sees the old list or none until the last store |
| MinidumpDriver.Minidump.GetRegion | minidump/msm_minidump.c:128-142 | the record of the first live region of that name, or zeros |
| Layout.SoundIff | minidump/msm_minidump.c:840-937 | the five parts of the header allocation are disjoint and inside it if and only if regions + 4 <= MAX_NUM_ENTRIES |
| Layout.HeaderCellCovers | minidump/msm_minidump.c:840-864 | in every consistent state the first cell the bootloader reads starts at the header allocation, covers every part of it with four spare places and the padding, and ends where the first payload of the dump file starts |
| Layout.GuardExceedsLayout | minidump/msm_minidump.c:663-678 | the registry accepts any distinct valid regions up to one less than the capacity, but holds their image if and only if the layout is sound for them, and no memory does otherwise |
| Layout.FirstOverrun | minidump/msm_minidump.c:188-209 | the whole image after the first add past the layout bound: that of the longer list but for the banner's program header and the first region's, over which the section is stored |
| Layout.OverrunNotUndone | minidump/msm_minidump.c:225-299 | removing that region again succeeds and leaves the banner's program header zero, so that what is left is the image of no list |
| Layout.StringTableRoom | minidump/msm_minidump.c:26-27 | in every consistent state there is room for another name and every removal's move stays inside the string table |
| RmLaws.StepKeepsTable | minidump/msm_minidump.c:301-450 | every step of every interleaving, with any number of regions and any removal requests, keeps the table equal to the regions with headers followed by those still waiting, in queue order |
| RmLaws.StepExact | minidump/msm_minidump.c:301-450 | the ELF image stays that of the regions with headers if and only if the second critical section is clean: an add within the layout bound, a removal that takes the headers of its own region or is refused |
| RmLaws.WindowExact | minidump/msm_minidump.c:1036-1065 | an add between the drain and the end of the probe keeps the invariant if and only if it is refused; otherwise it is counted and its region is in no cell and no queue |
| RmLaws.NeverCorrupt | minidump/msm_minidump.c:325-446 | the second critical section always finds its own cell: the corrupt-table branches are unreachable, and its ELF work is in bounds however many regions there are |
| RmLaws.SlotOwnership | minidump/msm_minidump.c:307-347 | no two cells share a nonzero slot, and a slot about to be given back is granted, held by nobody else, and given back once |
| RmLaws.RunKeeps | minidump/msm_minidump.c:452-475 | the table half over any run, the ELF half over any clean run |
| RmLaws.ProbedInv | minidump/msm_minidump.c:1040-1054 | regions pending at probe wait for their headers like any others |
| RmLaws.ProtocolSafe | minidump/msm_minidump.c:301-450 | after a probe, in any interleaving, the table is the regions with headers and those waiting, every nonzero slot is one granted for that name, and no foreign cell is ever touched; after a clean run cell i has program header i + 1 and section i + 4 |
| RmLaws.GetRegionSwaps | minidump/msm_minidump.c:114-126 | a region looked up in this mode carries its addresses swapped; with different addresses its removal is always refused, with equal ones it succeeds exactly when the region's own record would |
| RmSlots.ClientAnswers | minidump/msm_minidump.c:604-740 | every answer of the three calls, in numbers |
| RmSlots.QueueConserves | minidump/msm_minidump.c:452-475 | over any interleaving the worker takes up exactly the accepted requests, each once, in the order of the calls |
| RmSlots.StrayStep | minidump/msm_minidump.c:301-450 | in one step, a denied release is the only one that leaves a granted slot with nobody |
| RmSlots.SlotsStayHome | minidump/msm_minidump.c:301-450 | after a probe and any interleaving, a slot granted and not taken back is in the cell of its name or with the worker if and only if its release was never denied |
| RmSlots.RemovalStartsWithSlot | minidump/msm_minidump.c:396-424 | a removal taken up after a granted ADD has finished, with no other update or removal of that name in between, starts with that ADD's slot |
| RmSlots.AddCarriedOut | minidump/msm_minidump.c:350-394 | the whole state after a queued ADD, granted or denied a slot |
| RmSlots.UpdateCarriedOut | minidump/msm_minidump.c:301-348 | the whole state after a queued UPDATE of a region with headers, granted or denied the release or the new slot |
| RmSlots.RemoveCarriedOut | minidump/msm_minidump.c:396-450 | the whole state after a queued REMOVE of a region with headers, the release denied, or the ELF search refusing, or neither |
| RmSlots.ClientsCommute | minidump/msm_minidump.c:604-740 | a client's call and a worker's step lead to the same state in either order when the call is answered alike |
| RmSlots.AddThenRemove | minidump/msm_minidump.c:350-450 | adding a region and removing it again, on an idle worker, restores table, queue, granted slots and ELF image |
| RmEarly.StepConserves | minidump/msm_minidump.c:350-394 | with registrations only, all granted, no region is lost, doubled or overtaken between queue and headers |
| RmEarly.EarlyRegistration | minidump/msm_minidump.c:1036-1065 | once nothing waits the table lists the pending regions followed by those added since, and the ELF image is theirs, that of a registry probed first, if and only if their sections have their places |
| RegDump.DecodeBlock | memory_dump_v2/memory_dump_v2.c:300-358 | reading over the words of any list of requests prints exactly those requests |
| RegDump.ShowRendered | memory_dump_v2/memory_dump_v2.c:269-365 | reading back the buffer of any two lists lists the per-core requests, the system heading once, the system requests |
| RegDump.ShowExact | memory_dump_v2/memory_dump_v2.c:269-365 | the round trip holds if and only if no block read at offset 0 was stored |
| RegDump.RenderParts | memory_dump_v2/memory_dump_v2.c:459-525 | per-core commands stay clear of the system commands, with zeros between; the header's index and output offset are exact |
| RegDump.BufferWords | memory_dump_v2/memory_dump_v2.c:173-205 | every word of the buffer of two lists, in numbers: magic, version, indices, commands, zeros, terminator and fill pattern |
| RegDumpGuards.GuardExact | memory_dump_v2/memory_dump_v2.c:429-512 | the 32-bit checks accept exactly the well-formed requests whose unbounded total fits |
| RegDumpGuards.ProductGuard | memory_dump_v2/memory_dump_v2.c:468-472 | dividing back catches every wrapped product |
| RegDumpGuards.TableGuardExact | memory_dump_v2/memory_dump_v2.c:173-187 | the size check equals the unbounded one for every count below the limit, and from there on if and only if what is left of the count does not fit either |
| RegDumpGuards.TableGuardWraps | memory_dump_v2/memory_dump_v2.c:173-187 | the size check for any count and size, in unbounded arithmetic |
| RegDumpGuards.AnswerAdmits | memory_dump_v2/memory_dump_v2.c:459-525 | a request is accepted if and only if the buffer with it still fits, computed over the integers |
| RegDumpGuards.StoreAnswers | memory_dump_v2/memory_dump_v2.c:429-525 | every refusal of a request, in numbers and over the integers, in the order of the checks |
| RegDumpBits.BitByBit | memory_dump_v2/memory_dump_v2.c:321-347 | the bitwise or and and used below are those of every single bit |
| RegDumpBits.CommandBits | memory_dump_v2/memory_dump_v2.c:367-409 | the stored words of every request in bits: the offset with the command in its two low bits, and the value with 2 or 1 in its highest byte for a repeated read or a delay |
| RegDumpBits.ExtraBits | memory_dump_v2/memory_dump_v2.c:321-347 | what the reader prints of any word and the next one, by the driver's masks |
| RegDumpTables.RegDumpTable.UpdateTable | memory_dump_v2/memory_dump_v2.c:170-208 | succeeds if and only if the empty table fits, and then the buffer renders it; otherwise nothing changes |
| RegDumpTables.RegDumpTable.Configure | memory_dump_v2/memory_dump_v2.c:367-409 | writes the words of the request, which `CommandBits` gives, or nothing |
| RegDumpTables.RegDumpTable.Store | memory_dump_v2/memory_dump_v2.c:413-532 | an accepted request joins its list and the buffer renders both lists; a refused one leaves buffer and counters alone; used memory is header, commands and reserved output, within the size |
| RegDumpTables.RegDumpTable.StoreAll | memory_dump_v2/memory_dump_v2.c:413-532 | over any run the lists are exactly the admitted requests in order |
| RegDumpTables.RegDumpTable.Show | memory_dump_v2/memory_dump_v2.c:269-365 | the reader ends, and lists the accepted requests if and only if none is a block read at offset 0 |
| RegDumpTables.RegDumpTable.Session | memory_dump_v2/memory_dump_v2.c:170-532 | built, written and read back: what is shown is what was admitted, under the same condition |
| RegDumpTables.RegDumpTable.StoreCoreRegNum | memory_dump_v2/memory_dump_v2.c:227-263 | the invariants hold whatever requests, resets and other changes of the count run between its two critical sections, and every answer has its exact condition |
| RegDumpTables.RegDumpTable.Reset | memory_dump_v2/memory_dump_v2.c:556-570 | the default table if it fits, otherwise nothing |
| SprDump.SprGuardExact | memory_dump_v2/memory_dump_v2.c:651-654 | the 32-bit space check is the unbounded one for every register count but one, which sizes up to 0xFFFFFFFC never reach |
| SprDump.RenderSprGrows | memory_dump_v2/memory_dump_v2.c:655-662 | the three stores of an append make the buffer of the list with the new register |
| SprDump.SprWords | memory_dump_v2/memory_dump_v2.c:136-152 | every word of a register buffer, in numbers; the space in use is the output offset and eight bytes a register |
| SprDump.SprTable.Reset | memory_dump_v2/memory_dump_v2.c:136-152 | the buffer of no registers, with used = 24 |
| SprDump.SprTable.Append | memory_dump_v2/memory_dump_v2.c:646-671 | accepted if and only if it fits; used = 24 + 12 n = output offset + 8 n < size throughout |
| SprDump.SprTable.Show | memory_dump_v2/memory_dump_v2.c:609-619 | reading back gives the registers in order |
| SprDump.ResetAll | memory_dump_v2/memory_dump_v2.c:124-157 | every core with a buffer is reset |
| SprDump.Store | memory_dump_v2/memory_dump_v2.c:629-679 | every answer with its condition; no other core's buffer changes |
| MemLayout.LayoutSound | memory_dump_v2/memory_dump_v2.c:1038-1108 | for any nodes the blocks are disjoint, behind both tables, inside the size of the first pass, at one distance between their addresses; no counted space is left if and only if every node with a size has an id |
| MemLayout.LayoutInNumbers | memory_dump_v2/memory_dump_v2.c:1038-1094 | the area is whole pages, less than one more than tables and nodes take; every block is that of a node, a descriptor of 64 bytes and its payload, with at most 31 characters of the name |
| MemLayout.BuffersApart | memory_dump_v2/memory_dump_v2.c:991-1016 | drivers with different ids get buffers that do not overlap |
| MemLayout.BufferIsLast | memory_dump_v2/memory_dump_v2.c:991-1016 | the register-dump driver and the eight SPR cores, and nobody else, get a buffer if a block carries their id: the payload of the last one |
| MemLayout.EntriesLeadHome | memory_dump_v2/memory_dump_v2.c:1083-1094 | every registered entry leads to its own block's descriptor, and that to its own payload, clear of every other block |
| MemLayout.MemDump.GetTable | memory_dump_v2/memory_dump_v2.c:803-828 | the first table with the id, or none |
| MemLayout.MemDump.Init | memory_dump_v2/memory_dump_v2.c:912-935 | the base table leads to the apps table behind it |
| MemLayout.MemDump.Register | memory_dump_v2/memory_dump_v2.c:857-877 | the entry joins the apps table if and only if there is room |
| MemLayout.MemDump.CountSpace | memory_dump_v2/memory_dump_v2.c:1038-1056 | the first pass computes the aligned total of tables, sizes and descriptors |
| MemLayout.MemDump.Alloc | memory_dump_v2/memory_dump_v2.c:1019-1123 | the apps table lists the first 336 blocks and every block has its descriptor |
| MemLayout.LastAnswerExact | memory_dump_v2/memory_dump_v2.c:1069-1096 | the answer tells whether every node was laid out and listed, except exactly when the last one was and an earlier one was passed over without filling the table |
| MemLayout.MissedNode | memory_dump_v2/memory_dump_v2.c:1069-1081 | a list of nodes with a wrong answer |
| PageOwner.TextIsRecords | minidump/minidump_memory.c:460-551 | the text is nothing but the records of the pages with a handle, in page order and one behind the other, each the short or full line of its page; only an exhausted buffer cuts the last or drops the rest |
| PageOwner.RunExact | minidump/minidump_memory.c:460-480 | every short record follows a full record of its handle if and only if no record starts on the table's first byte with a new handle equal to the first one with its low byte cleared |
| PageOwner.SoundForeseen | minidump/minidump_memory.c:460-480 | whether the dump is sound can be told from the handles and record lengths of the pages beforehand |
| PageOwner.SoundUnlessOnTable | minidump/minidump_memory.c:460-480 | in particular it is when no record starts there |
| PageOwner.UnsoundDump | minidump/minidump_memory.c:460-480 | a concrete dump with an unfounded short record |
| PageOwner.TextReads | minidump/minidump_memory.c:460-480 | text that stops short of the table leaves it alone, and a NUL on its first byte clears the low byte of the first handle |
| PageOwner.FullRecord | minidump/minidump_memory.c:465-476 | a full record is its heading and then its stack lines, in order and one behind the other |
| PageOwner.PageOwnerDump.FoundStack | minidump/minidump_memory.c:363-384 | finds the handle in the table's bytes, or stores it if there is room |
| PageOwner.PageOwnerDump.PrintFull | minidump/minidump_memory.c:465-476 | prints the lines of a record up to the byte before the buffer's last |
| PageOwner.PageOwnerDump.DumpPage | minidump/minidump_memory.c:419-481 | one record makes the buffer that of the next state |
| PageOwner.PageOwnerDump.Dump | minidump/minidump_memory.c:483-551 | the buffer holds exactly the printed records and a NUL, all writes inside it, printed and remaining length adding up |
| Resize.MemoryDump.Register | minidump/minidump_memory.c:238-283 | succeeds if and only if allocator and registry have room and the name is new |
| Resize.MemoryDump.Unregister | minidump/minidump_memory.c:285-308 | succeeds if and only if the name is live |
| Resize.MemoryDump.Update | minidump/minidump_memory.c:310-345 | size and address stay those of the one live region of the name, or zero; the region is the requested one, else the old one, else none, exactly as registry and allocator have room, and no other region comes or goes; without a region a dump never changes |
| Resize.RemoveKeepsSane | minidump/minidump_memory.c:285-308 | a record read by name can always be removed again |
| Resize.AddKeepsSane | minidump/minidump_memory.c:238-283 | what is allocated honestly keeps regions apart, hence removable |
| VmapPieces.NamesDiffer | minidump/minidump_log.c:1140-1140 | truncated piece names are distinct for all piece numbers of up to ten digits |
| VmapPieces.DecimalSays | minidump/minidump_log.c:1140-1140 | the digits of a piece number say the number, without leading zeros |
| VmapPieces.NameParts | minidump/minidump_log.c:1140-1140 | a piece is called by its number, an underscore and as much of its module's name as the eleven characters leave |
| VmapPieces.NamesMeet | minidump/minidump_log.c:1140-1140 | two pieces of any two modules have the same name if and only if their numbers and what the digits leave of the modules' names agree |
| VmapPieces.TwoModules | minidump/minidump_log.c:1129-1148 | the pieces of two modules that fit the registry together are all registered if and only if no common piece number leaves the same of both names |
| VmapPieces.PiecesTile | minidump/minidump_log.c:1129-1148 | any range is cut into consecutive pieces that cover it exactly and never cross a page boundary |
| VmapPieces.PiecesCount | minidump/minidump_log.c:1129-1148 | one piece for each page touched |
| VmapPieces.PieceAt | minidump/minidump_log.c:1137-1141 | piece k has the name `NameParts` gives for k; its physical address is that of its first byte unless it is the first piece of an unaligned range |
| VmapPieces.AddAllExact | minidump/msm_minidump.c:663-678 | of any valid regions with new names the registry takes exactly as many as fit, in order |
| VmapPieces.GuardTight | minidump/minidump_log.c:1178-1192 | for page-aligned ranges the check passes if and only if no piece is refused |
| VmapPieces.RegisterVmap | minidump/minidump_log.c:1129-1148 | the loop registers the pieces in order, whatever the registry answers |
| VmapPieces.ProcessModule | minidump/minidump_log.c:1178-1194 | any range that passes the check has its pieces registered in turn, and a range that does not leaves the registry alone; whole pages with new names are registered whole; the ELF image is that of the regions registered if and only if the layout holds them |
| Witnesses.TwinCannotBeRemoved | minidump/msm_minidump.c:742-786 | two names for one piece of memory: the second cannot be removed, and is lost to both tables |
| Witnesses.RefusedUpdateShows | minidump/msm_minidump.c:642-643 | a refused update that changes the ELF headers |
| Witnesses.LastHandleBreaksRemoval | minidump/msm_minidump.c:211-223 | a refused update by the last handle, after which a region has another size in memory and cannot be removed |
| Witnesses.LateHandleHitsBanner | minidump/msm_minidump.c:211-223 | a refused update by the fourth last handle that changes the banner |
| Witnesses.LastHandleOverruns | minidump/msm_minidump.c:594-601 | an update by the last handle that leaves the bootloader's table |
| Witnesses.LostInTheWindow | minidump/msm_minidump.c:1036-1065 | a region registered before the probe is over that is in no table |
| Witnesses.DeniedSlotIsLost | minidump/msm_minidump.c:396-424 | a removal whose release is denied: the slot stays granted, with nobody, and a second removal does nothing |
| Witnesses.PendingUpdateHitsAnother | minidump/msm_minidump.c:642-643 | an accepted update that patches another region's headers |
| Witnesses.DuplicateSplitsTables | minidump/msm_minidump.c:742-786 | a name pending twice and removed once: the tables keep different regions |
| Witnesses.BannerCanBeRemoved | minidump/msm_minidump.c:225-299 | a removal that takes the banner's headers |
| Witnesses.LayoutOverrun | minidump/msm_minidump.c:840-937 | fourteen accepted regions whose section headers run into the program headers of a registry of seventeen: it holds the image of no list |
| Witnesses.SwappedLookup | minidump/msm_minidump.c:114-126 | a registered region that cannot be removed with what its lookup gave |
| Witnesses.ZeroBlockIsLost | memory_dump_v2/memory_dump_v2.c:321-325 | an admitted request that is never shown |
| Witnesses.GuardsWrap | memory_dump_v2/memory_dump_v2.c:173-187 | a count the table-size check wrongly admits, and a register the SPR check does |
| Witnesses.UnalignedPiece | minidump/minidump_log.c:1138-1139 | a piece whose physical address is not that of its first byte |
| Witnesses.ModulesCollide | minidump/minidump_log.c:1140-1140 | two modules of one page each, the second of which is not registered |

## Left out

- Updates and removals before probe, which the driver refuses outright, and a local table or toc
  that is missing.
- The resource-manager tables are modelled as values, not updated in place: the protocol is about
  interleavings of atomic critical sections. `md_rm_update` reads the name table without the lock;
  that read is atomic here.
- Locks, barriers and weak memory: every critical section is one step, except in the crash
  consistency clauses, which follow the order of the stores.
- Addition in `elf_offset` and the other totals is unbounded; subtraction wraps as in the driver.
- What the ELF search finds in a registry with more than `MAX_NUM_ENTRIES - 4` regions: it is
  modelled, word by word, but beyond the first add past the bound and its removal (`FirstOverrun`,
  `OverrunNotUndone`) only what does not depend on it is stated: tables, counts and bounds.
- Handles are not negative; the driver does not refuse a negative one.
- TableRuns.RunKeepsTables: runs in which a removal fails are left out, and so is the removal of a
  name pending twice; what such a step does is in `RemoveKeepsTables` and `RemoveDuplicate`. Updates
  come with handles an add has returned; `UnknownHandleExact` says what another one does.
- MinidumpDriver.Minidump.Probe: MAX_NUM_ENTRIES regions pending at probe, with which the drain
  leaves the table (`DrainBoundExact`).
- RmLaws.ProtocolSafe: pending names are distinct, and the resource manager refuses to release
  slot 0.
- Resize.MemoryDump.Update: a live dump is changed only in a registry of at most
  `MAX_NUM_ENTRIES - 4` regions, as its removal needs the ELF image.
- RegDumpTables.RegDumpTable.UpdateTable: counts from 0x7FFFFFFD on that the size check wrongly
  admits (`TableGuardWraps`) make the driver's memset leave the buffer or build a table of another
  size; they are excluded. The buffer before its first successful table update has no header.
- RegDumpTables.RegDumpTable.Show: the cut at `PAGE_SIZE` characters, and the text of the lines.
- RegDumpTables.RegDumpTable.Store: `sscanf` is a parameter: the number of fields and the fields.
- The bytes behind the last whole word of a buffer whose size is no multiple of four.
- SprDump.SprTable.Reset: the driver does not check that a buffer has room for the 24-byte header;
  smaller sizes are excluded.
- MemLayout.MemDump.Alloc: device-tree reading, the allocation itself and the registration of the
  whole area as MEMDUMP are parameters or absent, and so are failures of the drivers' own
  allocations; the index by which SPR buffers are stored is their id.
- PageOwner.PageOwnerDump.DumpPage: filters other than 0xF, one of which scribbles at the text
  position, and the walk over page frames; the rendered lines of a page are parameters. The handle
  table is no longer than the buffer, which the debugfs setter checks but a later resize does not.
- Resize.MemoryDump.Register: the id of the registered record is uninitialised in the driver and 0
  here; clearing the buffer is left out. Requests are below 2048 MB.
- VmapPieces.ProcessModule: the printing of section addresses and the choice of key modules.
- The slab-owner, DMA-buffer, meminfo, slabinfo, run-queue and CPU-context dumps, stack tracking,
  the ftrace buffer, `kaslr_store` and `xbl_log`.
- Device tree, SMEM lookup, DMA, sysfs, debugfs and module plumbing; allocation failures of probe.
