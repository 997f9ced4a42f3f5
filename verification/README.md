# Verification of hvpp's page tables, page hiding and Detours binary editing

This Dafny project models five parts of the repository and proves what they promise. Run `dafny verify dfyconfig.toml` to
check it.

1. **The extended page table engine** (`Paging`, `EptWalk`, `EptTree`, `EptPath`, `EptSplit`, `EptTypes`, `EptIdentity`,
   `Ept`). The class `Ept` keeps four levels of 512-entry tables in a memory of frames. `EptWalk` holds the processor's walk
   of Intel SDM Vol. 3C, section 28.2.2, as an independent definition of what the tables mean. The tree invariant is a
   directory from regions to frames in which no frame occurs twice. Every operation is proved to be a flat update of the
   translation and of the memory type of all addresses, to keep the invariant, and to account for every table it takes or
   gives back.
2. **The page-hiding protocol** (`HookModel`, `Hook`). `HookModel` is a state machine over runs of guest accesses, VMCALLs,
   violations, cache fills and cache losses (Intel SDM Vol. 3C, sections 28.2.3.2 and 28.3.3). `Hook` has the handlers as
   methods over `Ept`; each is proved to be a step of that machine and to keep the tables in the view the machine says, and
   hiding a second page is shown to be what leaves the protocol.
3. **Relocation of instructions** (`Arm64*`, `X64Copy`). For ARM64 there is a decoder and an interpreter (Arm Architecture
   Reference Manual DDI 0487, section C6.2); for every instruction word, running the copy at its new address is compared with
   running the original at the old one. For x64 the copy of a whole instruction, with its prefixes, is compared with the
   length that the fields of its ModR/M and SIB bytes give it (Intel SDM Vol. 2A, tables 2-2 and 2-3) and with what its
   displacement refers to (section 2.2.1.6).
4. **Binary editing** (`ByteBuffer`, `ImageData`, `ImageImports`, `ImageEdits`, `ImageLayout`, `ImageRead`, `ImageEmit`,
   `Image`). Payload records packed in a buffer, the editing and reset of the import list, the import tables written into the
   new section, byte by byte, and reading them back, with the originals beside them, as the same source file does.
5. **The word-level bitmap** (`BitWord`, `Bitmap`, over the shared `Bits`).

Results where the code does less than its documentation or name suggests are stated as exact conditions: B.cond with the two
always-codes, tests of x17, the 32-bit ADD of ADR, loads of literals between one and two megabytes away, a prefetch further
away, the last run that `find_first_clear` misses, a search that meets a payload record of length zero, GUIDs that occur
twice, ordinals that the import check and the reset overlook, a symbol made an ordinal whose name is lost when the image is
written, the lost lookup table of a single file without symbols, and a second page hidden while another one is.

## Model

| member | source | states |
|---|---|---|
| Paging.PageNumberIsQuotient | src/hvpp/hvpp/ia32/memory.h:95-102 | the 9-bit digit definition of a page number is division by the page size of the level |
| Paging.NodeOfChild | src/hvpp/hvpp/ia32/memory.h:95-102 | the region an address selects one level down is the child, by its index, of the region above, and back |
| Paging.SamePageIndices | src/hvpp/hvpp/ia32/memory.h:95-102 | two addresses share a page of a level exactly when they select the same entry of the same table |
| EptTree.WalkReaches | src/hvpp/hvpp/ept.cpp:398-439 | in a well-formed tree the walk of an address passes through every table that covers it with all rights still granted |
| EptTree.SetLeafTranslate | src/hvpp/hvpp/ia32/ept.h:332-339 | overwriting a leaf changes the translation of exactly the addresses that select it |
| EptTree.AddTableWellFormed | src/hvpp/hvpp/ept.cpp:409-438 | linking a fresh empty table below an absent entry keeps the tree invariant, without sharing |
| EptTree.AddTableTranslate | src/hvpp/hvpp/ept.cpp:409-438 | linking an empty table changes no translation |
| EptTree.RemoveTableWellFormed | src/hvpp/hvpp/ept.cpp:524-563 | clearing an entry and deleting the childless table below it keeps the invariant |
| EptTree.RemoveTableTranslate | src/hvpp/hvpp/ept.cpp:524-563 | afterwards exactly the addresses that selected the entry do not translate; all others are as before |
| EptTree.CutPointer | src/hvpp/hvpp/ept.cpp:510-564 | unmapping an entry whose table was emptied first removes all regions below it, no other region and no other translation |
| EptTree.CutLeaf | src/hvpp/hvpp/ept.cpp:510-564 | unmapping a leaf, or a clear entry, removes no table and untranslates exactly its addresses |
| EptEngine.Ept.constructor | src/hvpp/hvpp/ept.cpp:12-34 | a new object is well formed, holds the root table alone, and translates nothing |
| EptEngine.Ept.MapSubtable | src/hvpp/hvpp/ept.cpp:398-439 | the next table exists afterwards, all other tables, all translations and all memory types are unchanged, and a frame was taken exactly if it was missing |
| EptEngine.Ept.MapPt | src/hvpp/hvpp/ept.cpp:480-491 | the 4KB page translates as asked, with the memory type of the guest address; every other address is as before, and no table is added |
| EptEngine.Ept.MapPd | src/hvpp/hvpp/ept.cpp:465-478 | flat update of one page of 2MB or 4KB and of its memory type, adding exactly the missing tables of its path |
| EptEngine.Ept.MapPdpt | src/hvpp/hvpp/ept.cpp:450-463 | flat update of one page of 1GB, 2MB or 4KB and of its memory type, adding exactly the missing tables of its path |
| EptEngine.Ept.MapPml4 | src/hvpp/hvpp/ept.cpp:441-448 | the same from the top table |
| EptEngine.Ept.Map | src/hvpp/hvpp/ept.cpp:119-131 | all addresses of the page translate to the host page plus offset with the given access and have the memory type of the guest address, every other address is as before, the invariant holds, and the free frames drop by the missing tables |
| EptEngine.Ept.UnmapTable | src/hvpp/hvpp/ept.cpp:493-508 | the table has only clear entries, all tables below it are gone, and nothing else changed |
| EptEngine.Ept.UnmapEntry | src/hvpp/hvpp/ept.cpp:510-564 | the entry is clear, the tables below it are back with the allocator, and nothing else changed |
| EptEngine.Ept.DeleteSubtable | src/hvpp/hvpp/ept.cpp:524-563 | the recursion that empties and frees the table below an entry, with the level as its measure |
| EptEngine.Ept.DeleteTable | src/hvpp/hvpp/ept.cpp:558-560 | only a live frame is freed, so no frame is freed twice |
| EptEngine.Ept.Teardown | src/hvpp/hvpp/ept.cpp:36-39 | from any well-formed tree: every allocated table is freed, nothing else is, and the root is clear |
| EptEngine.Ept.Split | src/hvpp/hvpp/ept.cpp:241-320 | a large entry becomes 512 pages of the next level over the given host range, each with the memory type of its own address; an entry that is not large is left alone; the tables taken are counted |
| EptEngine.Ept.MapSubPages | src/hvpp/hvpp/ept.cpp:300-318 | the loop maps page after page, at any level at which the large entry was found |
| EptEngine.Ept.Join | src/hvpp/hvpp/ept.cpp:322-396 | the page translates as one large page with the memory type of its address, exactly the tables below it are freed, other addresses are unchanged; a large entry is left alone |
| EptEngine.Ept.MapIdentity | src/hvpp/hvpp/ept.cpp:41-82 | translation is the identity on exactly the first 512GB, in exactly 513 tables, and every address there has the memory type of its 2MB page |
| EptEngine.Ept.MapIdentitySparse | src/hvpp/hvpp/ept.cpp:84-117 | exactly the 2MB pages in the aligned interval of some range translate, to themselves, and have a memory type, that of the page |
| EptIdentity.AlignedMeansTouching | src/hvpp/hvpp/ept.cpp:100-112 | the aligned interval of a non-empty range holds exactly the 2MB pages the range touches |
| EptIdentity.IdentityReady | src/hvpp/hvpp/ept.cpp:60-80 | after any number of identity pages the next needs exactly the tables the count formula says |
| EptIdentity.PathCount | src/hvpp/hvpp/ept.cpp:398-439 | mapping a 2MB page raises the number of tables by exactly the missing ones |
| EptSplit.EptEntryAgreesWithWalk | src/hvpp/hvpp/ept.cpp:199-230 | ept_entry and the processor's walk agree: nothing found means no translation, an entry that is no pointer is where the walk ends, and it stops early only at a large page |
| EptSplit.SplitOutcomeIsPageOutcome | src/hvpp/hvpp/ept.cpp:241-320 | 512 small pages over an aligned host base are together the large page |
| EptSplit.SplitPreservesTranslation | src/hvpp/hvpp/ept.cpp:241-320 | splitting with the same host base and access changes the translation of no address |
| EptSplit.JoinUndoesSplit | src/hvpp/hvpp/ept.cpp:241-396 | join after split restores every translation and the set of live tables, whatever was remapped inside the page in between |
| EptSplit.MapIsWithin | src/hvpp/hvpp/ept.cpp:119-131 | remapping a small page of a split page is confined to that page |
| EptSplit.FreeCount | src/hvpp/hvpp/ept.cpp:398-439 | conservation: free frames and live tables together are the frames of the allocator and the root |
| EptTypes.MapLeafType | src/hvpp/hvpp/ept.cpp:480-491 | a leaf gives its memory type to exactly the addresses of its page |
| EptTypes.CutType | src/hvpp/hvpp/ept.cpp:510-564 | unmapped addresses have no memory type, and every other address keeps the one it had |
| EptTypes.SplitTypesStep | src/hvpp/hvpp/ept.cpp:300-318 | page after page of a split page gets the memory type of its own address |
| EptTypes.JoinTypes | src/hvpp/hvpp/ept.cpp:322-396 | unmapping and mapping one large page leaves its type on the page and every other type as it was |
| EptTypes.LargePageTyped | src/hvpp/hvpp/ept.cpp:60-80 | mapping a 2MB page keeps it true that whatever translates has the type of its 2MB page |
| EptTypes.IdentityEnds | src/hvpp/hvpp/ept.cpp:41-82 | what the identity mapping is in numbers: addresses below 0x80_0000_0000 map to themselves |
| HookModel.ViolationIsOnHiddenPage | src/hvppdrv/vmexit_custom.cpp:229-260 | a violation, from a cached translation or a walk, can only be on the hidden page, so ignoring the faulting address is right |
| HookModel.StepKeepsInv | src/hvppdrv/vmexit_custom.cpp:173-294 | every step of the machine keeps all cached translations sound |
| HookModel.CompletionIsExpected | src/hvppdrv/vmexit_custom.cpp:189-203 | in a sound state an access completes only at the page it has to reach |
| HookModel.RunKeepsInv | src/hvppdrv/vmexit_custom.cpp:173-294 | the invariant holds in every state of every run |
| HookModel.Safety | src/hvppdrv/vmexit_custom.cpp:173-294 | in every run, with any caching: completed fetches from the hidden page come from page_exec, completed data accesses from page_read, all others from the identity, and violations are on the hidden page, all in page numbers |
| HookModel.ViolationSettles | src/hvppdrv/vmexit_custom.cpp:262-293 | after one violation the retried access is permitted and cannot fault again, without INVEPT |
| HookModel.SettledStays | src/hvppdrv/vmexit_custom.cpp:262-293 | no step but a hide, an unhide or a violation of the other view brings the violation back, also no violation of the same view from elsewhere |
| HookModel.SettledInRun | src/hvppdrv/vmexit_custom.cpp:262-293 | in every run the access stays settled, and its page hidden, until such an event |
| HookModel.AtMostOneViolation | src/hvppdrv/vmexit_custom.cpp:229-293 | progress over whole runs: between two violations of one access lies a hide, an unhide, or a violation of the other view |
| HookModel.NoViewServesBoth | src/hvppdrv/vmexit_custom.cpp:237-260 | no state of the tables serves a fetch from the hidden page and a data access to it at once |
| HookModel.HandlerHelpsOnlyBelowLimit | src/hvppdrv/vmexit_custom.cpp:229-260 | the handler resolves a violation exactly if the address is below 512GB |
| HookModel.HideNeedsFreeSlot | src/hvppdrv/vmexit_custom.cpp:179-204 | what hiding makes of the translation is the view of one hidden page if and only if none, or the same page, was hidden before |
| HookHandler.VirtualCpu.constructor | src/hvppdrv/vmexit_custom.cpp:7-24 | after setup the first 512GB are identity mapped in 513 tables and the machine is in its first state |
| HookHandler.VirtualCpu.Hide | src/hvppdrv/vmexit_custom.cpp:179-204 | in every protocol state: the tables become the overlay of the page over the old view, the cache is empty, and the protocol is kept, as its hide step, if and only if none, or the same page, was hidden before |
| HookHandler.VirtualCpu.HideTables | src/hvppdrv/vmexit_custom.cpp:189-197 | the tables alone: the overlay in every state, one table more unless the page was split already, and the view of the page exactly in the states in which Hide keeps the protocol |
| HookHandler.VirtualCpu.SplitAround | src/hvppdrv/vmexit_custom.cpp:189-192 | in every view the 2MB page is split, unless it is already, without changing a translation |
| HookHandler.VirtualCpu.Map4kb | src/hvppdrv/vmexit_custom.cpp:194-197 | one 4KB page is remapped, nothing else changes, and no table is taken |
| HookHandler.VirtualCpu.Unhide | src/hvppdrv/vmexit_custom.cpp:206-221 | the tables return to the identity view in 513 tables; with nothing hidden they do not change |
| HookHandler.VirtualCpu.UnhideTables | src/hvppdrv/vmexit_custom.cpp:209-214 | the join gives the identity view back and one table to the allocator |
| HookHandler.VirtualCpu.HandleExecuteVmcall | src/hvppdrv/vmexit_custom.cpp:173-227 | rcx 0xc1 and 0xc2 are the two steps of the machine, except that a second page leaves the protocol; any other call is left to the base handler with nothing changed |
| HookHandler.VirtualCpu.HandleEptViolation | src/hvppdrv/vmexit_custom.cpp:229-294 | data accesses switch to the read-write view, fetches to the execute-only view, and the instruction is retried |
| HookHandler.VirtualCpu.HandleExit | src/hvpp/hvpp/vcpu.cpp:743-850 | the instruction pointer moves on after a VMCALL and stays for a violation, whose handler matches the step of the machine |
| HookHandler.VirtualCpu.Teardown | src/hvppdrv/vmexit_custom.cpp:147-153 | every frame goes back to the allocator |
| HookHandler.SplitForHide | src/hvppdrv/vmexit_custom.cpp:189-192 | splitting in any view adds the page table of the page and changes no translation |
| HookHandler.HideIsOverlay | src/hvppdrv/vmexit_custom.cpp:189-197 | from every view, split and map make the page execute-only and leave every other translation as it is |
| HookHandler.HideGivesView | src/hvppdrv/vmexit_custom.cpp:189-197 | that is the view of the hidden page if and only if none, or the same page, was hidden before |
| HookHandler.MapForView | src/hvppdrv/vmexit_custom.cpp:237-260 | one 4KB mapping turns either view of the hidden page into the wanted one |
| HookHandler.JoinForUnhide | src/hvppdrv/vmexit_custom.cpp:209-214 | joining gives the idle view back and frees one table |
| Arm64Encode.DecodeEncode | src/hvppctrl/detours/disasm.cpp:3585-3845 | the architecture's decoder inverts the encoding unions on every operand the code emits |
| Arm64Encode.RunEncoded | src/hvppctrl/detours/disasm.cpp:3585-3845 | running the emitted words is running the intended instructions |
| Arm64Move.MoveImmediateRuns | src/hvppctrl/detours/disasm.cpp:3928-3977 | for every 64-bit value and every register: one to four words that leave exactly that value in the register, nothing in register 31, and change nothing else |
| Arm64Move.InsertIntoJoin | src/hvppctrl/detours/disasm.cpp:3967-3972 | MOVK replaces one 16-bit piece of the value |
| Arm64Move.MoveImmediateLength | src/hvppctrl/detours/disasm.cpp:3928-3977 | one instruction for each piece that is not the most frequent one of zero and all ones, and one for a value that the 32-bit form reaches |
| Arm64Relocate.CopyTestCorrectness | src/hvppctrl/detours/disasm.cpp:4033-4168 | the copy of B.cond, CBZ/CBNZ, TBZ/TBNZ does what the original did in every machine state if and only if it is one instruction, or its condition can be inverted and, far away, is not on x17 |
| Arm64Relocate.CopyTestScratch | src/hvppctrl/detours/disasm.cpp:4033-4168 | a right copy goes to the target in exactly the same states, else to its end, and changes only x17 and only when far |
| Arm64Relocate.AlwaysFails | src/hvppctrl/detours/disasm.cpp:4048-4063 | beyond the near range the two always-codes go wrong in every state |
| Arm64Relocate.TestOfX17Fails | src/hvppctrl/detours/disasm.cpp:4124-4166 | far away a test of x17 goes wrong, with the state in which it does |
| Arm64Relocate.CopyBranchCorrect | src/hvppctrl/detours/disasm.cpp:4067-4090 | at every distance the copy of B or BL reaches the target, BL links to the end of the copy, and only x17 may change |
| Arm64Relocate.CopyAdrpCorrect | src/hvppctrl/detours/disasm.cpp:4007-4030 | relocated ADRP yields the same page address at every distance |
| Arm64Relocate.CopyAdrCorrectness | src/hvppctrl/detours/disasm.cpp:3979-4006 | relocated ADR yields the address if and only if it is not in the page form, or the address fits 32 bits; for register 31 the page form has to leave the stack pointer as it is |
| Arm64Relocate.SoundLiteral | src/hvppctrl/detours/disasm.cpp:4170-4206 | the copy of a load of a literal does what the load did when it is in reach, or so far that it is replaced, unless it is a prefetch |
| Arm64Relocate.BeyondLiteral | src/hvppctrl/detours/disasm.cpp:4170-4182 | between one and two megabytes the copied load reaches another address |
| Arm64Copy.CopyCorrectness | src/hvppctrl/detours/disasm.cpp:3889-4206 | for every instruction word and any two addresses: running the written words at the new address does what running the original at the old one does, in every machine state, if and only if the stated condition on class, register and distance, in bytes, holds |
| Arm64Copy.SoundIsSame | src/hvppctrl/detours/disasm.cpp:3889-4206 | under the condition: same place or end of the copy, same registers, vector registers, flags and memory; x30 at the end of the copy after BL, and x17 free in the far forms only |
| Arm64Copy.UnsoundDiffers | src/hvppctrl/detours/disasm.cpp:3889-4206 | without it there is a machine state in which the copy does something else |
| Arm64Copy.ReachedIsRetargeted | src/hvppctrl/detours/disasm.cpp:3979-4182 | a target in reach of the instruction itself (a quarter of the reach for TBZ) is reached by the same instruction with another offset, in one word, and the copy is right in every state |
| Arm64Copy.CopyLength | src/hvppctrl/detours/disasm.cpp:3979-4206 | the number of words at every distance, with the limits in bytes and pages |
| Arm64Copy.TargetFacts | src/hvppctrl/detours/disasm.cpp:3994-4012 | the target of an aligned branch or load is aligned, and that of ADRP begins a page |
| Arm64DetourDis.CDetourDis.EmitMovImmediate | src/hvppctrl/detours/disasm.cpp:3928-3977 | the memory holds exactly the proved sequence, nothing else is written, and its length is returned |
| Arm64DetourDis.CDetourDis.EmitPieces | src/hvppctrl/detours/disasm.cpp:3954-3974 | the loop over the pieces emits the proved sequence |
| Arm64DetourDis.CDetourDis.CopyBcc | src/hvppctrl/detours/disasm.cpp:4033-4065 | the memory holds the proved copy of the branch, and the target is reported |
| Arm64DetourDis.CDetourDis.CopyCbz | src/hvppctrl/detours/disasm.cpp:4102-4134 | the same for CBZ and CBNZ |
| Arm64DetourDis.CDetourDis.CopyTbz | src/hvppctrl/detours/disasm.cpp:4136-4168 | the same for TBZ and TBNZ |
| Arm64DetourDis.CDetourDis.CopyBOrBl | src/hvppctrl/detours/disasm.cpp:4067-4090 | the same for B and BL |
| Arm64DetourDis.CDetourDis.CopyAdrOrAdrp | src/hvppctrl/detours/disasm.cpp:3979-4030 | the memory holds the proved copy of ADR or ADRP |
| Arm64DetourDis.CDetourDis.CopyLiteral | src/hvppctrl/detours/disasm.cpp:4170-4206 | the memory holds the specified copy of a load of a literal |
| Arm64DetourDis.CDetourDis.CopyInstruction | src/hvppctrl/detours/disasm.cpp:3889-3926 | for every word the memory holds the words that CopyCorrectness speaks about, nothing else is written, and target and growth are reported |
| X64Copy.SignedField | src/hvppctrl/detours/disasm.cpp:519-576 | a number stored in a field of 1, 2 or 4 bytes reads back as itself exactly if it fits |
| X64Copy.SignedBytes | src/hvppctrl/detours/disasm.cpp:509-530 | a field of 1, 2 or 4 bytes is read lowest byte first, as a signed number |
| X64Copy.EntriesFit | src/hvppctrl/detours/disasm.cpp:179-230 | every kind of entry that the tables are made of has the shape that copying relies on |
| X64Copy.ModRmIsOperand | src/hvppctrl/detours/disasm.cpp:859-876 | the table of ModR/M bytes says what the fields say: a SIB byte, displacements of one and four bytes, and a relative operand |
| X64Copy.SizeIsLength | src/hvppctrl/detours/disasm.cpp:381-428 | the length is the fixed part under 66, 67 and REX.W plus the operand bytes that the fields of the ModR/M and SIB bytes ask for; the relative operand is the displacement of a branch, or of mod == 0 with rm == 5 |
| X64Copy.BodyIsComplete | src/hvppctrl/detours/disasm.cpp:367-440 | a body is copied if all bytes are there that the manual gives it |
| X64Copy.CopiedBodyGivesTarget | src/hvppctrl/detours/disasm.cpp:367-749 | the target reported: where a branch or jump leads; what the pointer of an indirect call or jump holds; dynamic; a null pointer for a relative operand; or none |
| X64Copy.PrefixMeans | src/hvppctrl/detours/disasm.cpp:442-463 | each prefix: the table in which the next byte is looked up, and the override it leaves |
| X64Copy.VexMeans | src/hvppctrl/detours/disasm.cpp:751-836 | both VEX prefixes: the table or the entry of the opcode map, and the overrides |
| X64Copy.OpcodeMeans | src/hvppctrl/detours/disasm.cpp:600-698 | the form an opcode has by its register field or by the overrides |
| X64Copy.CopiedBytesKeepTarget | src/hvppctrl/detours/disasm.cpp:367-440 | the copied body differs only in its relative operand, which reaches the old target exactly if the shifted offset fits; the growth reports a misfit for 1 and 2 bytes, negated where the entry cannot be enlarged, and never for 4 |
| X64Copy.CopiedJumpKeepsTarget | src/hvppctrl/detours/disasm.cpp:465-497 | a short jump becomes the near jump of the same condition to the same target exactly if that is in reach, longer by the reported amount |
| X64Copy.CopiedBodyKeepsTarget | src/hvppctrl/detours/disasm.cpp:367-497 | the copied body has the length that the fields of its ModR/M and SIB bytes give it, its relative operand is where these fields have it, and it, or the near jump, refers to what the body referred to exactly if the shifted offset fits |
| X64Copy.CopyKeepsTarget | src/hvppctrl/detours/disasm.cpp:346-836 | the whole instruction, with any chain of prefixes: prefixes are copied, the source is used to the end of the body, whose length the manual gives, and the operand, where it now is, reaches the old target exactly if the shifted offset fits |
| X64Copy.CopiedPrefix | src/hvppctrl/detours/disasm.cpp:442-463 | the copy of a prefixed instruction is the prefix and the copy of the rest under the new overrides |
| X64Copy.CDetourDis.CopyInstruction | src/hvppctrl/detours/disasm.cpp:346-365 | the destination holds the prefixes and a body of the length of the manual that refers to what the original refers to exactly if that is in reach; nothing else is written; the length, the target and the growth are reported |
| X64Copy.CDetourDis.CopyEntry | src/hvppctrl/detours/disasm.cpp:360-365 | every entry function writes the specified copy and nothing else |
| X64Copy.CDetourDis.CopyBytesPrefix | src/hvppctrl/detours/disasm.cpp:442-463 | the recursion over the prefixes, also those of VEX, writes the specified copy |
| X64Copy.CDetourDis.NoteOverride | src/hvppctrl/detours/disasm.cpp:751-836 | each prefix, and the last byte of a VEX prefix, sets its override |
| X64Copy.CDetourDis.CopyFF | src/hvppctrl/detours/disasm.cpp:700-749 | the body of an indirect call or jump is copied, and its target is what its pointer holds, or dynamic |
| X64Copy.CDetourDis.CopyBytes | src/hvppctrl/detours/disasm.cpp:367-440 | the body is copied with its operand moved, under the size and flag rules of the entry |
| X64Copy.CDetourDis.AdjustTarget | src/hvppctrl/detours/disasm.cpp:499-577 | the field holds the shifted offset, the old target is returned, and a misfit sets the growth |
| X64Copy.CDetourDis.CopyBytesJump | src/hvppctrl/detours/disasm.cpp:465-497 | the near jump is written in place of the short one |
| ImageData.StoredLookup | src/hvppctrl/detours/image.cpp:609-642 | after Set the GUID has the new data if and only if at most one record had it, or the next one has equal data; other GUIDs keep theirs |
| ImageData.RemovedLookup | src/hvppctrl/detours/image.cpp:581-607 | after Delete the GUID is gone if and only if at most one record had it |
| ImageData.RemovedCounts | src/hvppctrl/detours/image.cpp:581-607 | Delete takes one record of the GUID and no other |
| ImageData.DistinctKept | src/hvppctrl/detours/image.cpp:581-642 | lists without double GUIDs stay so under Set and Delete |
| ImageData.RecordAt | src/hvppctrl/detours/image.cpp:542-579 | where record k lies in the packed bytes |
| ImageData.RecordFields | src/hvppctrl/detours/image.cpp:620-638 | reading length, zero, GUID and data of a packed record gives what was packed |
| ImageData.DeleteKeepsPacked | src/hvppctrl/detours/image.cpp:592-602 | moving the rest of the buffer over a record leaves exactly the other records packed |
| ImageData.CImageData.SizeTo | src/hvppctrl/detours/image.cpp:451-478 | the records survive the move to a larger buffer |
| ImageData.ValidIff | src/hvppctrl/detours/image.cpp:489-511 | the walk over the record lengths ends exactly at the end if and only if the bytes are a list of records |
| ImageData.CImageData.IsValid | src/hvppctrl/detours/image.cpp:489-511 | on any bytes the walk ends; it accepts exactly if it meets no bad header, so also a last record that reaches too far; the headers are those that the lengths lead to |
| ImageData.CImageData.Enumerate | src/hvppctrl/detours/image.cpp:513-540 | from the iterator of record k it gives record k and the iterator of the next one, and nothing at the end |
| ImageData.CImageData.Find | src/hvppctrl/detours/image.cpp:542-579 | on any bytes in which it meets no empty record it ends as the search does, at the first header with the GUID; on a list of records it gives the bytes of the data of the first record of the GUID, or nothing exactly if there is none |
| ImageData.FindEndsIff | src/hvppctrl/detours/image.cpp:546-572 | on any bytes the search ends if and only if it meets no record of length zero before a match, or a record that is too long |
| ImageData.CImageData.Delete | src/hvppctrl/detours/image.cpp:581-607 | the list loses the first record of the GUID, no other one changes or moves, and the buffer stays packed despite the overlapping move |
| ImageData.CImageData.Set | src/hvppctrl/detours/image.cpp:609-642 | the list ends with the GUID and the given bytes, zeros up to the next multiple of eight (all zeros for a null pointer), in place of its first record, with the length and the place of the data that this gives |
| ImageData.CImageData.Append | src/hvppctrl/detours/image.cpp:619-642 | the record is written behind the others: its length, a zero, the GUID, the given bytes and zeros |
| ImageData.FindAfterSet | src/hvppctrl/detours/image.cpp:542-642 | a search after Set gives exactly the bytes that were set, and zeros up to the multiple of eight |
| ImageData.SearchEndsHere | src/hvppctrl/detours/image.cpp:546-572 | where a search ends: at the first header of the GUID among those that the lengths lead to |
| ImageData.CImageData.Purge | src/hvppctrl/detours/image.cpp:480-487 | the list is empty |
| ByteBuffer.Move | src/hvppctrl/detours/image.cpp:599-601 | the overlapping move gives what copying from the old contents would |
| ByteBuffer.LowestFirst | src/hvppctrl/detours/image.cpp:620-638 | numbers in buffers have their lowest byte first |
| ImageImports.EditKeepsOriginals | src/hvppctrl/detours/image.cpp:1461-1625 | no edit, complete or broken off, with any callbacks, changes the original symbols or their order |
| ImageImports.ResetRestores | src/hvppctrl/detours/image.cpp:2161-2213 | reset succeeds, drops the byways, and restores every file, name and ordinal |
| ImageImports.ResetUndoesEdits | src/hvppctrl/detours/image.cpp:1461-1625 | after any sequence of edits a reset gives the list of the fresh image back |
| ImageImports.ResetUndoesRenameIff | src/hvppctrl/detours/image.cpp:2190-2200 | naming every symbol is undone by reset if and only if every symbol has an original name or a non-zero ordinal |
| ImageImports.NotNeededIff | src/hvppctrl/detours/image.cpp:1374-1424 | no new tables needed and all ordinals original is the same as the list being the original one |
| ImageImports.RestoredIsNotNeeded | src/hvppctrl/detours/image.cpp:1374-1424 | the original list needs no new tables |
| ImageImports.RenumberedOrdinalIsMissed | src/hvppctrl/detours/image.cpp:1396-1404 | an edit that changes only an ordinal changes the list and is not noticed |
| DetourImage.CImage.NewByway | src/hvppctrl/detours/image.cpp:1428-1459 | a byway for every name short enough to duplicate, and the file count goes up with it |
| DetourImage.CImage.EditSymbols | src/hvppctrl/detours/image.cpp:1549-1584 | the loop over the symbols of one file does the specified pass, stopping where a callback fails |
| DetourImage.CImage.EditFileAt | src/hvppctrl/detours/image.cpp:1522-1584 | a file of the image gets the name that was answered, its symbols the names and ordinals, or the edit breaks off where a callback fails; the rest of the list stays |
| DetourImage.CImage.EditBywayAt | src/hvppctrl/detours/image.cpp:1491-1520 | a byway answered with a name has it, with its own pointer stays, and with null is gone, or the edit breaks off; the count equals the length of the list |
| DetourImage.CImage.EditImports | src/hvppctrl/detours/image.cpp:1461-1625 | the in-place loop leaves the list that the answers tell of, byways inserted before the file for which they were answered; it succeeds exactly if the pass does and the commit callback, called after it, agrees; the count equals the length of the list, also on failure |
| ImageEdits.NamesEdited | src/hvppctrl/detours/image.cpp:1549-1584 | by cases: each symbol gets the name and ordinal zero, or the ordinal and no name, or stays; or the place at which the edit broke off |
| ImageEdits.HeadEdited | src/hvppctrl/detours/image.cpp:1491-1584 | by cases: what becomes of a byway or a file, and how many callbacks that takes |
| ImageEdits.EditStory | src/hvppctrl/detours/image.cpp:1461-1612 | the whole pass as a list of gaps of inserted byways and of what became of the files between them |
| ImageEdits.EditIsTold | src/hvppctrl/detours/image.cpp:1461-1625 | the whole edit: that pass, and then the commit callback once, if it succeeded |
| ImageEdits.SteadyEdit | src/hvppctrl/detours/image.cpp:1461-1612 | callbacks that do not look at the count: the list is, file after file, what the answers say |
| DetourImage.CImage.ResetImports | src/hvppctrl/detours/image.cpp:2202-2213 | with the originals known: success, the original list, and no new tables needed |
| DetourImage.CImage.CheckImportsNeeded | src/hvppctrl/detours/image.cpp:1374-1424 | whether a name changed or a byway exists, and the exact numbers of tables, thunks and characters |
| DetourImage.CheckNames | src/hvppctrl/detours/image.cpp:1396-1411 | rounding up the running sum is rounding up each name |
| DetourImage.CImageThunks.Allocate | src/hvppctrl/detours/image.cpp:682-694 | the entry goes to the next place and its address is returned, or nothing changes when the table is full |
| DetourImage.CImageChars.Allocate | src/hvppctrl/detours/image.cpp:718-763 | the string, with its hint if any, goes to the next even place, or nothing changes when it does not fit |
| DetourImage.EmitSymbols | src/hvppctrl/detours/image.cpp:1880-1899 | the symbols of a file fill exactly its part of the name and lookup tables |
| DetourImage.EmitByway | src/hvppctrl/detours/image.cpp:1863-1873 | a byway gets ordinal 1 and an end in both tables |
| DetourImage.EmitFile | src/hvppctrl/detours/image.cpp:1855-1902 | after one turn the file is completely in the tables, and nothing outside its places changed |
| DetourImage.CImage.SizeOutputBuffer | src/hvppctrl/detours/image.cpp:894-921 | a buffer that is long enough stays; else the new one is the least multiple of the file alignment that holds the bytes, and 1024 at least, and keeps the old contents |
| DetourImage.CImage.AllocateOutput | src/hvppctrl/detours/image.cpp:923-940 | the next bytes, cleared, with everything before them unchanged; failure exactly if they do not fit |
| DetourImage.CImage.ReserveTables | src/hvppctrl/detours/image.cpp:1804-1853 | no allocation fails, the tables are disjoint, and the section ends exactly where the sizes said |
| DetourImage.CImage.FillTables | src/hvppctrl/detours/image.cpp:1855-1902 | all files are in the tables one after another and an empty descriptor ends them |
| DetourImage.CImage.WriteImports | src/hvppctrl/detours/image.cpp:1804-1902 | sizing agrees with emission for every list: success, exact sizes in bytes, and every image that shows the section shows the whole list, field by field and thunk by thunk; reading gives the list back exactly under the stated condition |
| DetourImage.CImage.WriteTables | src/hvppctrl/detours/image.cpp:1804-1902 | the same in terms of the layout: where the tables lie, and that they hold the whole list |
| DetourImage.SizesAdd | src/hvppctrl/detours/image.cpp:1804-1853 | the parts of the section, in bytes, add up to its size |
| ImageRead.ShowSymbols | src/hvppctrl/detours/image.cpp:1880-1899 | an image with the section shows the thunks of a file: bit 63 and the ordinal, or the place of hint and name, and a zero at the end |
| ImageRead.ShowFile | src/hvppctrl/detours/image.cpp:1855-1902 | an image with the section shows a descriptor field by field, and the thunks of a byway: ordinal 1 and zero |
| ImageRead.ShowList | src/hvppctrl/detours/image.cpp:1855-1902 | an image with the section shows a descriptor for every file in order, and one of zeros |
| ImageEmit.EndIsBehind | src/hvppctrl/detours/image.cpp:1374-1424 | emitting a list moves the cursors by exactly the numbers the sizing pass counted |
| ImageEmit.FileWrittenKept | src/hvppctrl/detours/image.cpp:1855-1902 | a file stays written when later files are |
| ImageEmit.PrefixFits | src/hvppctrl/detours/image.cpp:677-769 | in tables of the counted size every prefix of the list has its place |
| ImageRead.ReadIsFresh | src/hvppctrl/detours/image.cpp:1164-1291 | reading an image that was never edited gives a fresh list, and the image holds its originals |
| ImageRead.ReadSymbols | src/hvppctrl/detours/image.cpp:1228-1291 | reading the written thunks beside the original ones gives the symbols in order, with the original ordinals and names, and 16-bit ordinals |
| ImageRead.ReadFile | src/hvppctrl/detours/image.cpp:1175-1291 | reading one written descriptor beside the original one gives the file with its original name, or a byway, which has no original |
| ImageRead.ReadFiles | src/hvppctrl/detours/image.cpp:1164-1291 | reading the written tables the way Read does gives the list back, byways in between, with the originals in the image |
| ImageRead.ReadBackIff | src/hvppctrl/detours/image.cpp:672-680 | it does so if and only if the list has not exactly one thunk, for which no table address is stored, or the address table of that file is empty |
| ImageRead.ReloadedOriginals | src/hvppctrl/detours/image.cpp:1255-1291 | writing and reading the list keeps all originals if and only if every symbol has a name or is its original ordinal |
| ImageRead.ResetAfterReloadIff | src/hvppctrl/detours/image.cpp:2161-2213 | a reset of the list that was written and read gives the original list if and only if that holds |
| ImageRead.OriginalsKept | src/hvppctrl/detours/image.cpp:1135-1161 | adding a section leaves the originals where they are |
| ImageRead.UndoAcrossWriteIff | src/hvppctrl/detours/image.cpp:1052-1300 | read, any edits, write, read again, reset: the list of the first image comes back if and only if the edits left every symbol by name or by its original ordinal |
| BitWord.ShlBit | src/hvpp/hvpp/lib/bitmap.cpp:23-56 | a left shift moves every bit up and loses those beyond bit 63 |
| BitWord.BsfInWord | src/hvpp/hvpp/lib/bitmap.cpp:264-304 | the scan result of a non-zero word is its lowest set bit |
| BitWord.From | src/hvpp/hvpp/lib/bitmap.h:74-76 | the complement of a mask plus one has exactly the bits from the mask's bit on |
| Bitmap.BasicBitmap.Set | src/hvpp/hvpp/lib/bitmap.cpp:23-56 | exactly the bits of the range become set and no other bit changes, for every alignment of both ends |
| Bitmap.BasicBitmap.Clear | src/hvpp/hvpp/lib/bitmap.cpp:68-101 | exactly the bits of the range become clear and no other bit changes |
| Bitmap.BasicBitmap.Memset | src/hvpp/hvpp/lib/bitmap.cpp:45-47 | the bytewise fill changes exactly its bits |
| Bitmap.BasicBitmap.GetLengthOfSet | src/hvpp/hvpp/lib/bitmap.cpp:264-304 | at most the true run length inside the bitmap, and equal to it when both are capped at the count |
| Bitmap.BasicBitmap.GetLengthOfClear | src/hvpp/hvpp/lib/bitmap.cpp:306-346 | the same for clear bits |
| Bitmap.BasicBitmap.AreBitsSet | src/hvpp/hvpp/lib/bitmap.cpp:232-241 | true exactly if the range is non-empty, inside the bitmap, and all its bits are set |
| Bitmap.BasicBitmap.AreBitsClear | src/hvpp/hvpp/lib/bitmap.cpp:243-252 | the same for clear bits |
| Bitmap.BasicBitmap.FindFirstSet | src/hvpp/hvpp/lib/bitmap.cpp:123-158 | the least position from the index on (from 0 if the index is beyond the end) that starts a run of the count, or -1 exactly if there is none |
| Bitmap.BasicBitmap.FindFirstClear | src/hvpp/hvpp/lib/bitmap.cpp:175-210 | the same for clear bits, except that it always answers -1 when the count reaches exactly to the end |
| Bitmap.MissedLastRun | src/hvpp/hvpp/lib/bitmap.cpp:193-207 | in that case the answer is right exactly if the last bits are not all clear |
| Bitmap.SearchStep | src/hvpp/hvpp/lib/bitmap.cpp:142-155 | one turn of the search finds the least run or moves on past places where none starts |

## Left out

Page tables:

- The allocator is a set of free frames; operations require as many free frames as they take. Allocation failure, and the
  translation between virtual and physical addresses, are not modelled.
- Addresses are below 2^48; other bits of the entries than access, memory type, large and frame number are not modelled, and
  the MTRR type is an uninterpreted function.
- EptEngine.Ept.Map: requires an access other than none, no large page above the level, and no table below a large map, as
  the code does not handle these cases.
- EptEngine.Ept.Split: requires that the entry is found and that the ranges lie inside the address space.
- EptEngine.Ept.Join: requires that the entry is found.
- EptEngine.Ept.MapIdentitySparse: the memory ranges are an argument instead of the memory manager's list.
- The EPT pointer's own fields.

Page hiding:

- HookHandler.VirtualCpu.HandleExecuteVmcall: takes the physical addresses of the two pointers; requires the page to be below
  512GB, beyond which there is no entry to split, and a free table for a second page.
- HookHandler.VirtualCpu.HandleEptViolation: requires a hidden page for an access; HookModel.Safety shows that no violation
  occurs without one.
- After a second page was hidden the protocol is left, and no further steps are modelled.
- The base handler of other VMCALLs, the other exit handlers, the setup of the VMCS, interrupts, and the race of several
  CPUs: every CPU has its own tables.
- What a guest does with addresses above 512GB.

Relocation:

- ARM64: the effect of instructions that neither depend on their address nor are emitted, and of prefetches and reserved
  encodings, which are taken to do nothing; faults of loads; and the scratch destination for a null pointer. Addresses wrap at
  64 bits.
- X64Copy.CDetourDis.CopyInstruction: the two opcode tables are a parameter, of which the shape of the entries is assumed that
  X64Copy.EntriesFit shows of every kind of entry; which opcode has which kind is not modelled. Invalid opcodes, bytes that
  end too early and the debug assertions are not modelled either; addresses do not wrap.
- The IA64 and Thumb encoders, and the 32-bit x86 variants.

Binary editing:

- The linked list is a sequence; moving pointers shows only as the order of the sequence. Memory exhaustion is not modelled.
- ImageData.CImageData.Find: on bytes that are no list of records, requires readable headers, at most 2^31 bytes, so that
  offsets do not wrap, and no record of length zero, on which the original loop does not end (ImageData.FindEndsIff).
- ImageData.CImageData.Set: the total stays below 2^32.
- DetourImage.CImage.EditImports: requires callbacks that at some point stop inserting byways, without which the original
  loop does not end.
- DetourImage.CImage.WriteImports: requires names without zero bytes, values that fit the fields of the tables, and a prefix
  size that is a multiple of 8, as Read makes it; a missing name would crash the original. 32-bit overflow of the sizes, the
  contents of the section header (so the address of the original directory is an argument of reading) and of the payload
  copy, and the file itself are not modelled. The fields of a descriptor
  are stored together.
- ImageRead.ReadFiles: a read that runs from one section into a gap is a failure, where the original reads on in the file;
  the search for the sections and the payloads by Read is not modelled.
- Reading and writing of files, the headers, and the other sections.

Bitmap:

- The searches and tests without arguments for the whole bitmap, single-bit operations, and integer overflow of index plus
  count: sizes are at most the largest int.

Everything else in the repository: device and control code, logging, the disassembler tables and printers, process creation,
module enumeration, and the small containers, which would only add easy members.
