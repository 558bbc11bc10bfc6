# Model of the uld-fdpic loader, linker and flash file system

uld-fdpic runs FDPIC ELF files from flash on a Cortex-M3: code stays in place in flash, data is loaded
into RAM, and a dynamic linker connects the files.  The files are listed in a table in flash, and a file
can be moved to another place in flash while the system runs.  This project models that on an explicit
memory, a sequence of bytes indexed by 32-bit addresses, and proves what the parts promise.

Every source function that changes state is a method with the same branches, tied by its `ensures` to a
specification function or to a relation between the old and the new memory; the results about whole runs
are lemmas about those.  `swbkpt()`, a fault and the use of an indeterminate pointer are one outcome,
`Trapped`; nothing is claimed about what follows a trap.  `Failed(code)` is a C error return or a Python
exception.

| part | modules |
|---|---|
| memory, words, sections | `Words`, `Options`, `Sections`, `ElfImage` |
| symbol lookup | `NameHash`, `SymbolTable` |
| dynamic linker | `LinkSpec` (what each step computes), `Linker` (the methods), `LinkMeaning` (what a finished link is), `LinkSearch`, `LinkProof` (the invariant over every state), `LinkTheorems`, `LinkOutcome` (when a link ends), `LinkProvides` (which symbols provide an address), `LinkExample` |
| dependency list | `DepGraph`, `DepList` |
| loader | `SectionList`, `MemLoad`, `MemFixups`, `FileLoad`, `LoadRun`, `DepLoad`, `LoadShift`, `LoadTheorems`, `LoadLink` |
| running a file | `Exec`: dependency list, load and link together |
| fixups and moving files | `Fixups`, `ImageMove`, `ImageLaws`, `ImageRuns`, `MoveLists`, `Relocate`, `Patcher` |
| flash file system | `FsTable`, `FreeSpace`, `FlashStore`, `FlashMover`, `FlashRuns`, `FileTable`, `FlashStart` |
| CRC-32, base64 | `Crc32`, `CrcPolynomial`, `Base64Spec`, `Base64Lines`, `Base64` |
| inputs at which the code departs from its promises | `Departures` |

## What the code does not do

Each of these is a place where the code departs from what its comments or its callers suggest.  The
model follows the code; one lemma says exactly when the promise is kept, and one in `Departures` gives an
input at which it is not.

- A file without memory has memory base 0, which the linker takes for "found through a relocation".  Its
  data symbols are not translated (`LinkTheorems.DataSlotIsRunAddr`; `Departures.ObjectNotTranslated`).
  In place of a descriptor of one of its functions, a FUNCDESC_VALUE gets a copy of the two words at the
  function's link address, and a FUNCDESC may point there (`LinkTheorems.FuncDescValuesCorrect`,
  `LinkTheorems.FuncDescsCorrect`; `Departures.FunctionGetsNoDescriptor`,
  `Departures.FunctionPointsAtCode`).
- Sections without contents have adjusted link address 0, so a fixup word smaller than such a section is
  taken for an address in it and spoilt when the file moves (`ImageMove.PassedIsMove`, and for whole
  runs `FlashRuns.RunTranslatesExactly`; `Departures.NullWindowHit`).
- A move there and back restores the image only if no fixup word is such a word or happens to be an
  address of the image at the other place (`ImageLaws.MoveThereAndBack`, and for whole runs
  `FlashRuns.RunTranslatesExactly`; `Departures.FalseHitAtStop`); the
  build-time patcher and the mover agree under a condition of the same kind on the words that the patcher
  leaves alone (`ImageLaws.PatchAndMoveAgree`; `Departures.LinkAddressTaken`).
- The free space search compares sizes as signed numbers, and answers wrongly for sizes above
  2^31 - 8 (`FreeSpace.FirstFitExact`; `Departures.LargeSizeAccepted`).
- `apply_rofixups` carries `skip` over from the fixup before, so a value outside every section is
  accepted after a skipped fixup and rejected otherwise (`Patcher.ApplyRofixups`; `Departures.OrderMatters`).
- A gap between memory sections is taken off the size that is reported, while the sections themselves
  are put side by side, so that the next file, or the linker's pool after the last one, may begin
  inside this one's memory (`MemLoad.GapExact`; `Departures.GapLosesMemory`).
- The gap test looks at file offsets, so it does not see a hole between the addresses of .data and .bss;
  link and run addresses then differ by more than one constant (`LoadShift.AdjacentExact`,
  `MemFixups.OneShiftExact`; `Departures.HoleBeforeBss`).
- A call of `base64_encode_cb_write` that begins on a full line buffer loses that line
  (`Base64Lines.CallsExact`; `Departures.LineLost`), and the final call on an encoder that was given
  nothing writes a line of whatever the buffer holds (`Base64.State.FinalCbWrite`;
  `Departures.NothingIsNoLine`).

## Model

| member | source | states |
|---|---|---|
| NameHash.ComputeElfHash | src/uld_dyn.c:92-106 | the loop computes the SysV hash in wrapping 32-bit arithmetic |
| NameHash.ElfHash | src/uld_dyn.c:92-106 | on every string the hash is below 2^28 |
| NameHash.HashFolds | src/uld_dyn.c:92-106 | one more character makes the hash sixteen times the one before plus its code, modulo 2^28, with bits 4 to 7 exclusive-ored with the nibble that does not fit |
| NameHash.HashIsBase16 | src/uld_dyn.c:92-106 | as long as the character codes, as digits to base 16, come to less than 2^28, that number is the hash |
| NameHash.ShortNames | src/uld_dyn.c:92-106 | so it is for every name of up to six 7-bit characters |
| NameHash.KnownHash | src/uld_dyn.c:92-106 | the hash of "syscall", which wraps around, is 0xb09985c |
| SymbolTable.FindDynsymLinear | src/uld_dyn.c:163-183 | the linear scan returns the first symbol of the name, none if there is none |
| SymbolTable.FindDynsymHash | src/uld_dyn.c:108-142 | on every well-formed hash table the bucket and chain walk ends and returns what the linear scan returns, for every non-empty name |
| Sections.FindInList | src/uld_sal.c:127-210 | the section search returns the first section with the flag that contains the address |
| Sections.FileLmaToAdjustedVma | src/uld_file.c:150-175 | the address map of a file: flash, memory, then other sections, and the run address of the place in the section found |
| Sections.SectionLmaToAdjustedVma | src/uld_sal.c:305-334 | the run address of a link address in a section: NULL outside it and for a section without contents that is not in memory |
| Sections.GetSecByIndex | src/uld_file.c:40-64 | the first section with the header index in the flash, memory and other lists; found if and only if one of them has it |
| LinkSpec.FailureStays | src/uld_dyn.c:941-1047 | once a relocation fails or traps, no later one is made and the pass ends with that outcome |
| LinkSearch.SearchBelowData | src/uld_dyn.c:602-735 | for a data symbol the search over earlier files ends at the nearest file that defines it, at an earlier slot for the same name, or nowhere |
| LinkSearch.SearchBelowFunc | src/uld_dyn.c:602-735 | for a function the search ends at its one definer, or at an earlier descriptor for it |
| Linker.ResolveRel | src/uld_dyn.c:423-735 | the nested search loops over files and relocations compute the resolution that the specification gives, with the same-file rule between FUNCDESC and FUNCDESC_VALUE |
| Linker.WriteData | src/uld_dyn.c:737-767 | ABS32 and found GLOB_DAT slots: one word, the resolved address, nothing else |
| Linker.WriteBlock | src/uld_dyn.c:769-837 | an undefined object gets the next pool bytes, zeroed; pool pointer and counter move by the same aligned amount |
| Linker.WriteFuncDesc | src/uld_dyn.c:858-895 | a FUNCDESC borrows a descriptor or gets a new pair from the pool |
| Linker.WriteFuncDescValue | src/uld_dyn.c:897-939 | a FUNCDESC_VALUE becomes (entry, memory base) or a copy of the descriptor found |
| Linker.UpdateRelative | src/uld_dyn.c:380-403 | a RELATIVE slot becomes the translation of its word |
| Linker.LinkFileList | src/uld_dyn.c:941-1047 | the two loops over files and relocations carry out exactly the pass of the specification on the memory array |
| LinkProof.StepKeepsInv | src/uld_dyn.c:961-1041 | one relocation keeps the invariant: all slots passed so far right, the pool in order, all else untouched |
| LinkProof.EveryState | src/uld_dyn.c:941-1047 | the invariant holds before every relocation of every run that does not trap |
| LinkTheorems.DataSlotsCorrect | src/uld_dyn.c:423-837 | after a link, every ABS32 and GLOB_DAT slot for an object holds its address in the nearest file at or before its own that defines it, whether found by symbol or borrowed |
| LinkTheorems.DataSlotIsRunAddr | src/uld_dyn.c:423-837 | that address is the symbol's run address if and only if the definer has memory or the symbol does not move |
| LinkTheorems.RelativeSlotsCorrect | src/uld_dyn.c:380-403 | after a link, every RELATIVE slot holds the translation of what was loaded there |
| LinkTheorems.OtherBytesKept | src/uld_dyn.c:941-1047 | a link changes no byte outside the relocation slots and the used part of the pool |
| LinkTheorems.FuncDescValuesCorrect | src/uld_dyn.c:897-939 | after a link, every FUNCDESC_VALUE slot is (run entry address, memory base of the definer) if and only if the definer has memory or the two words at the function's link address already are that |
| LinkTheorems.SectionDescriptorsCorrect | src/uld_dyn.c:534-564 | against a section symbol it is the place at the stored offset from the section's link address, with the file's own base |
| LinkTheorems.DescriptorsDoneAfterFile | src/uld_dyn.c:636-665 | as soon as file i is done, what a FUNCDESC of files 0 to i points at is a complete descriptor, although it may have been borrowed while still unfilled; under the same condition and only under it |
| LinkTheorems.FuncDescsCorrect | src/uld_dyn.c:858-895 | after a link, every FUNCDESC points at a complete descriptor of its function, under the same condition and only under it |
| LinkTheorems.PoolCorrect | src/uld_dyn.c:800-823 | pool items lie one behind the other, blocks are still zero and descriptors complete at the end, and the counter is the distance that the pool pointer has moved |
| LinkTheorems.UndefinedSlotInPool | src/uld_dyn.c:800-823 | every data slot for an object that no file defines holds the address of a pool block for it |
| LinkTheorems.UndefinedObjectHasOneBlock | src/uld_dyn.c:595-600 | such an object has exactly one block, and all slots for it in all files hold that one address |
| LinkOutcome.Reaches | src/uld_dyn.c:961-1041 | the pass comes to a relocation if and only if all before it are served, among other things each function they refer to defined at or before their file, and the pool pointer is then what the tables alone say |
| LinkOutcome.LinkEndsExactly | src/uld_dyn.c:941-1047 | a link of well-linked files ends without a trap if and only if every relocation is served in its turn: sections exist, each function is defined at or before the file that refers to it, each undefined object is in the table of an earlier file or was allocated before, words to be copied are in memory, and the pool has room |
| LinkOutcome.LinkedAreDefined | src/uld_dyn.c:719-731 | after a link that has ended, each function that a relocation refers to has its one definer at or before every file that refers to it, so that the results about descriptors apply |
| LinkProvides.ObjectFromProvider | include/elf.h:549-551 | after a link, a data slot holds the address of the object in the nearest file, at or before its own, whose symbol for it has a section index from 1 to 0x7fff |
| LinkProvides.ObjectWithoutProvider | src/uld_dyn.c:800-823 | an object that all symbols have only with index 0 or a reserved one gets one zeroed block, whose address all its slots hold |
| LinkProvides.FunctionFromProvider | src/uld_dyn.c:573-590 | after a link, a FUNCDESC_VALUE slot, and what a FUNCDESC points at, is the descriptor of the function in the one file whose symbol for it has such an index, if that file has memory |
| LinkProvides.LinkedTypes | src/uld_dyn.c:516-570 | after a link, a GLOB_DAT is against an object, a FUNCDESC against a function, and a FUNCDESC_VALUE against a function or a section |
| LinkExample.LinkedFromSectionFive | src/uld_dyn.c:573-590 | two files, an object provided from section 5 of the first: the link ends, and the slot holds the run address of the object |
| Departures.ObjectNotTranslated | src/uld_dyn.c:756-761 | two files, the first without memory: the slot for its object is not the object's run address |
| Departures.FunctionGetsNoDescriptor | src/uld_dyn.c:919-936 | two files, the first without memory: the slot for its function is no descriptor of it |
| Departures.FunctionPointsAtCode | src/uld_dyn.c:875-895 | the same with a FUNCDESC: the slot points at the link address of the function, where no descriptor is |
| DepGraph.VisitExact | src/uld_dyn.c:243-295 | the list keeps what it held in front and adds exactly the files reached from the root without going through those, once each, each after all files it needs, the root last |
| DepGraph.VisitFitsTable | src/uld_dyn.c:307-312 | no dependency list is longer than the file table |
| DepList.FindFse | src/uld_fs.c:52-62 | lookup by name finds the first file of that name |
| DepList.CreateDepList | src/uld_dyn.c:243-295 | the recursive search fills the array in that order and ends on every acyclic graph; on an error the array holds a beginning of that list, and nothing behind it is written |
| DepList.DepListExact | include/uld_dyn.h:165-180 | it succeeds if and only if no file that cannot be searched is reached and there is room; -2 only when there is no room, -1 only when such a file is reached |
| DepList.TableLengthSuffices | src/uld_dyn.c:297-319 | a list as long as the file table never reports lack of room |
| DepList.GetDepCount | src/uld_dyn.c:297-319 | the count is the number of files reached, or -1 |
| DepList.CountThenFill | src/uld_dyn.c:1070-1076 | refilling a list of the counted size succeeds and fills it to the last place |
| DepList.FindFseInFlash | src/uld_fs.c:52-62 | the walk over the list in flash finds the entry that the search over the table works with |
| ElfImage.SectionGetType | src/uld_sal.c:92-133 | memory, flash or other by name and type number, None for the trap on an unknown allocated type |
| ElfImage.GetSegmentBySection | src/elf.c:126-185 | the first loadable segment that holds the section, with the test as the code has it |
| ElfImage.LmaFollowsAddr | src/elf.c:187-238 | the link address of a section is its header address moved from the virtual to the physical address of its segment, if and only if file offset and address are equally far into the segment or the section has no contents |
| ElfImage.RunsInPlace | src/uld_load.c:34-96 | a section with contents that is not loaded runs where it is stored: byte o of it is found by its link address and by its flash address, and its run address is that flash address |
| SectionList.CreateSecList | src/uld_load.c:126-198 | the insertion loop fills the array with the specified list, stops when it is full, traps on an unknown allocated type, and leaves the rest of the array alone |
| SectionList.ListedIsMatching | src/uld_load.c:126-198 | with room for all, the list has every section of the asked types exactly once |
| SectionList.ListedSorted | src/uld_load.c:147-174 | the list has flash sections first, then memory, then other sections, within a type by address, or by offset where there is none, and sections at the same place in the order of their headers |
| SectionList.GetSecCount | src/uld_load.c:98-124 | the count is the number of sections of the asked types |
| MemLoad.AllocMemSections | src/uld_load.c:213-299 | sections are placed one behind the other from the base, contents copied from flash or zeroed, run addresses and flags set, nothing else written; it traps just for a section of another segment or an overlap; the size reported is the sum less the gaps |
| MemLoad.GapExact | src/uld_load.c:200-211 | with that size the next file's memory begins at or above the end of this one's if and only if the gaps are lost in the rounding, or are larger than that end's address, when the 32-bit sum comes out above it; what follows the last file, if and only if there are no gaps or such large ones |
| MemFixups.ApplyMemFixups | src/uld_rofixup.c:309-349 | the driver runs the fixup loop with .got and .got.plt found by name; without memory sections or .rofixup it returns 1 |
| MemFixups.MemFixupRelocates | src/uld_rofixup.c:209-261 | a word that the callback accounts for is given its run-time meaning: run address of a place in memory, memory base for the .got.plt base in .got, unchanged otherwise |
| MemFixups.OneShiftExact | src/uld_load.c:213-299 | link to run addresses in memory are one constant shift if and only if the link addresses of the sections have no gaps |
| MemFixups.FileShift | src/uld_file.c:150-175 | then the whole address map of the file is that shift for every link address in its memory |
| Departures.GapLosesMemory | src/uld_load.c:255-261 | two sections with a gap: the next file's memory begins inside this one's |
| Departures.HoleBeforeBss | src/uld_load.c:243-261 | .data of five bytes and .bss at the next doubleword pass the gap test and are not shifted as one |
| FileLoad.CreateFile | src/uld_load.c:301-354 | memory, flash and other sections are listed in that order into what is left of the array |
| FileLoad.FileListsExact | src/uld_load.c:98-198 | with as many places as the first pass counted, each list has all its sections and together they take exactly that many places |
| FileLoad.ListsWithRoom | src/uld_load.c:301-354 | the lists do not depend on how much room there is beyond the count |
| LoadRun.LoadFile | src/uld_load.c:356-392 | next base, lists, memory and fixups of one file; it succeeds just when the sections are in one segment without overlap, there is a fixup table and every fixup word is accounted for, or the file has no memory |
| LoadRun.LayoutSound | src/uld_load.c:200-211 | bases are 8-byte aligned and at or above the end of the linker's bss; the memory of a file ends at or below the base of every later file and lies in the reported range |
| DepLoad.GetDepListSecCount | src/uld_dyn.c:321-332 | the section count of all files of the list |
| DepLoad.LoadDepList | src/uld_dyn.c:334-378 | it succeeds just when no file has anything that stops the load, never for want of room in the counted array; then every file's memory holds its contents and fixups, untouched by later loads, every slot of the section array is used, base and size reported cover all memory, and nothing outside is written |
| LoadTheorems.MarkedByName | src/uld_load.c:91-93 | in the list of memory sections of an image, those named .got, .got.plt and .data are marked for fixups, and no other |
| LoadTheorems.FixupWordMeaning | src/uld_rofixup.c:209-261 | after loading, every fixup word in a memory section named .got, .got.plt or .data has its run-time meaning |
| LoadTheorems.BssStaysZero | src/uld_load.c:263-277 | after loading, .bss is zero: no fixup is made in it |
| LoadTheorems.OtherBytesLoaded | src/uld_load.c:263-277 | after loading, every byte of a memory section that no fixup in .got, .got.plt or .data covers is that of the image, or zero |
| LoadTheorems.AccountedExact | src/uld_rofixup.c:216-246 | the fixups stop a load if and only if some fixup word in .got, .got.plt or .data, in memory as the sections are placed, is neither blank nor a link address in the file's memory nor an address of its sections in flash |
| LoadTheorems.FlashAddressStays | src/uld_rofixup.c:222-246 | after loading, a fixup word that is an address in the image in flash is what the image has |
| LoadShift.AdjacentExact | src/uld_load.c:243-261 | for sections of one segment that pass the gap test, the link addresses are side by side, as the memory is, if and only if .bss follows the contents without a hole |
| LoadLink.LoaderServesLinker | src/uld_dyn.c:1090-1111 | what the load has left, for images whose memory is one block: in every file link addresses of memory become run addresses by one constant, every relocation slot is in a loaded section of its file inside the memory reported, and no two overlap; with dynamic tables in order the files are well linked |
| Fixups.ApplyFixups | src/uld_rofixup.c:57-148 | the loop does for every fixup in a marked section, up to the last word that begins in the table, what its callback says of the word it found first, and nothing else; the window of lowest and highest address skips no fixup that the section search would find |
| ImageMove.RewrittenIsMoved | src/uld_rofixup.c:150-207 | outside the null windows the flash callback is the translation of addresses in the image, and keeps every other word |
| ImageMove.WindowSpoils | src/uld_rofixup.c:166-177 | inside a null window it is not |
| ImageMove.PassesRewrite | src/uld_rofixup.c:263-307 | the two passes over the copy rewrite the slots of the copy from the words of the old image and change nothing else |
| ImageMove.PassedIsMove | src/uld_rofixup.c:150-207 | the result is the exact translation of the image if and only if no fixup word is in a null window, for null windows below the image |
| Departures.NullWindowHit | src/uld_rofixup.c:166-177 | an image whose fixup word is 4, with eight bytes of .bss, does not move exactly |
| MoveLists.CreatedLists | src/uld_reloc.c:93-98 | an image of at most 20 sections is listed whole, as the model of the move has it |
| MoveLists.SameElfAnywhere | src/uld_reloc.c:38-63 | the lists that the mover works with at a place are those that the loader makes of the image there, with the sections marked that may hold fixups |
| ImageLaws.MoveUnique | src/uld_reloc.c:65-136 | image, old and new place determine every byte of the moved image |
| ImageLaws.MovesTranslate | src/uld_reloc.c:65-136 | two moves of the code, B to B' to B'', are an exact translation from B to B'' if and only if no fixup word is in a null window or mistaken at B' for an address in the image |
| ImageLaws.MoveCompose | src/uld_reloc.c:65-136 | B to B' to B'' gives the bytes of B to B'', as the code moves, if and only if no fixup word is an address in the image at B' but not at B, and no word in a null window comes out of the first move as such an address or in a null window again |
| ImageLaws.MoveThereAndBack | src/uld_reloc.c:65-136 | B to B' to B, as the code moves, restores the image byte for byte if and only if no fixup word is in a null window or mistaken at B' |
| ImageLaws.PatchAndMoveAgree | scripts/patch-uld-elf.py:272-349 | patching for B and moving to B' with the code's two passes gives the bytes of patching for B', if and only if no word that the patcher leaves alone is in a null window or an address in the image at B |
| Patcher.ApplyRofixups | scripts/patch-uld-elf.py:272-349 | it ends without raising if and only if every fixup is accepted, and then the copy is the patched image and the rest of the file is unchanged |
| Departures.FalseHitAtStop | src/uld_rofixup.c:150-207 | an image whose fixup word is an address at the other place is not restored by moving there and back |
| Departures.LinkAddressTaken | scripts/patch-uld-elf.py:272-349 | an image whose unpatched word is an address at B: to patch and move is not to patch for the other place |
| Departures.OrderMatters | scripts/patch-uld-elf.py:300-312 | the same fixups are accepted in one order and not in the other |
| Relocate.PrepareFlashFixups | src/uld_reloc.c:38-63 | all flash sections are marked for fixups, and the memory sections named .got, .got.plt and .data |
| Relocate.AccountedExact | src/uld_rofixup.c:176-196 | the flash callback does not trap at a word if and only if it is blank, an address in the image, in a null window, or a link address in the file's memory |
| Relocate.ApplyFlashFixups | src/uld_rofixup.c:263-307 | which of success, 1, -1 and trap comes out, the trap just when some fixup word is none of these, and that all but the trap write only to the copy |
| FsTable.GetFileCount | src/uld_fs.c:29-38 | the number of entries |
| FsTable.GetFileByIndex | src/uld_fs.c:40-50 | the entry at the index, none behind the end |
| FsTable.GetFileByName | src/uld_fs.c:52-62 | the first entry of that name, none if no entry has it |
| FreeSpace.SortEntries | src/uld_fs.c:85-106 | the insertion sort of the entries by base address |
| FreeSpace.FindFreeSpace | src/uld_fs.c:65-117 | the method computes the specified scan of the sorted entries with its signed 32-bit comparisons |
| FreeSpace.SortedPlaced | src/uld_fs.c:85-106 | sorting keeps exactly the entries and puts them in ascending order without overlap |
| FreeSpace.FirstFitExact | src/uld_fs.c:65-117 | the result is the lowest place where the rounded size fits, or none if there is none, if and only if the size is at most 2^31 - 8 |
| FreeSpace.FoundAtEdge | src/uld_fs.c:108-116 | the place found is the start of the region or the end of a file |
| Departures.LargeSizeAccepted | src/uld_fs.c:65-117 | a size near 2^31 is given the start of a region of 16 bytes |
| FlashStore.StepKeepsInv | src/uld_reloc.c:82-128 | a move keeps the file system sound: list order and names, alignment, disjointness, region, fixup tables, every entry CRC and the table CRC |
| FlashStore.OtherImagesKept | src/uld_reloc.c:65-136 | the other files keep their place and every byte |
| FlashStore.FreeSpaceIsFree | src/uld_reloc.c:105-120 | a move that fails after copying has changed no file, no entry and no CRC |
| FlashMover.UpdateFseCrc | src/uld_sal.c:82-90 | the entry gets the CRC of the bytes that its own base and size name |
| FlashMover.OverlapExact | src/uld_reloc.c:82-89 | the simple check by both end points finds every overlap of the destination with the file |
| FlashMover.FinishedWords | src/uld_reloc.c:122-128 | after the last three writes the entry base, the entry CRC and the table CRC are all right at once |
| FlashMover.MoveFse | src/uld_reloc.c:65-136 | the outcome in every case, with a trap just for a misaligned place or a fixup word that nothing accounts for; on success the whole new memory; on an error return the same store as before |
| FlashRuns.FoundIsFree | src/uld.c:113-121 | the place found for a file is free, aligned and not refused by the move |
| FlashRuns.MoveFile | src/uld.c:104-121 | search and move: a step of the state machine or no change, sound in either case; it traps only on an unaccounted fixup |
| FlashRuns.RunKeepsInv | src/uld_reloc.c:82-128 | after every sequence of moves and failed moves the file system is sound |
| ImageRuns.WordOverExact | src/uld_rofixup.c:150-207 | a fixup word that goes through any sequence of places is the exact translation at the end if and only if it is blank, or in a null window of an image that has stayed, or the first place at which it is taken for an address in the image is the first of all or the place it is now at |
| FlashRuns.RunTranslatesExactly | src/uld_reloc.c:65-136 | after every sequence of moves and failed moves a file is its first image translated to where it is now if and only if each of its fixup words comes through in that sense |
| FlashRuns.RunTranslates | src/uld_reloc.c:65-136 | so it is after every such sequence, if its fixup words are 0, addresses in the image, or link addresses outside the files region and the null windows |
| FlashRuns.RunForgets | src/uld_reloc.c:65-136 | the bytes of a file depend only on where it is, so a file back at its first place is its first image again |
| FlashRuns.TableCrcLast | src/uld_reloc.c:127-128 | with the two CRCs written in the other order the table CRC would verify only if the entry CRC did not change |
| FlashRuns.DamageFailsVerify | src/uld_sal.c:73-80 | a file that is damaged within four consecutive bytes fails its CRC |
| FlashStart.GeneratedStoreSound | scripts/gen-uld-files.py:152-194 | a generated table in place, with the CRCs of the files in its entries, its own CRC in the CRC word and well-formed images, is a sound store, from which every run of moves can start |
| FileTable.GenHdr | scripts/gen-uld-files.py:152-194 | the loop lays out entry after entry with running base and next pointer, and fails just when the table does not fit |
| FileTable.TableIsList | src/uld_fs.c:29-62 | the linker's walk over the generated bytes meets the files in order with their names, each with its flash range right behind the one before |
| FileTable.EntriesOnWords | scripts/gen-uld-files.py:131-171 | every entry of the table begins on a whole word, less than a word behind the name of the one before |
| FileTable.GeneratedPlaced | src/uld_fs.c:78-116 | generated files are disjoint and inside the region, as the free space search wants them |
| FileTable.ParseFsTable | scripts/patch-uld-elf.py:241-269 | the parser computes the entries along the chain of next pointers, or raises |
| FileTable.ParseGenerated | scripts/patch-uld-elf.py:241-269 | the generated bytes parse to the same files in order, with running-sum bases, sizes, CRCs and names |
| FileTable.GenerateAndParse | scripts/gen-uld-files.py:152-194 | generating and parsing gives the files back, or the error of a table that is too small |
| Crc32.ComputeCrc | src/util.c:32-49 | the nested loops compute the reflected CRC, register step by register step |
| CrcPolynomial.CrcIsRemainder | src/util.c:32-49 | that is the CRC-32 of section 8 of RFC 1952: the complemented remainder of the message times x^32, its first 32 coefficients complemented, by x^32+x^26+x^23+x^22+x^16+x^12+x^11+x^10+x^8+x^7+x^5+x^4+x^2+x+1, by long division |
| CrcPolynomial.CheckValue | include/util.h:30-31 | the CRC of the digits 1 to 9 is the published 0xCBF43926 |
| Crc32.CrcConcat | src/util.c:32-49 | the CRC of two pieces is that of the second continued from that of the first |
| Crc32.RegisterInjective | src/util.c:32-49 | two different registers stay different whatever data follows |
| Crc32.FourByteChangeDetected | src/util.c:32-49 | two images of one length that differ only within four consecutive bytes have different CRCs |
| Base64Spec.DecodeEncode | src/base64.c:27-28 | decoding what section 4 of RFC 4648 encodes gives it back |
| Base64Spec.CharAt | src/base64.c:27-28 | the table of the code is the alphabet of the specification, at every index |
| Base64Spec.Rfc4648Vectors | src/base64.c:66-101 | the test vectors of section 10 of RFC 4648 for one, two and three bytes |
| Base64Spec.EmittedIsEncode | src/base64.c:108-130 | the characters put out byte by byte, and the padding of the end, are the encoding of section 4 of RFC 4648 |
| Base64Lines.LineFits | src/base64.c:49-50 | with lines of whole groups the buffer never overflows, and padding never has to be broken over lines |
| Base64Lines.FinishedLines | src/base64.c:193-234 | full lines and finished last line are the encoding, in lines of which only the last may be shorter |
| Base64Lines.CallsExact | src/base64.c:193-213 | several calls deliver the encoding in lines if and only if none but the first begins on a full line buffer |
| Base64.State.EncodeLoop | src/base64.c:108-149 | the loop takes bytes until they or the line are used up; buffer and state then depend only on the bytes taken so far, not on how they were split |
| Base64.State.EncodeEnd | src/base64.c:66-101 | the end adds the rest of the bits and the padding |
| Base64.State.Encode | src/base64.c:31-150 | one call on any state: error returns, set-up, end, or loop |
| Base64.State.EncodeCbWrite | src/base64.c:193-213 | the driver delivers every line that fills up but the one that is full at the end |
| Base64.State.FinalCbWrite | src/base64.c:215-234 | the final driver delivers the last line with its padding |
| Base64.WriteAll | src/base64.c:193-234 | for every buffer length from 5 to 255 and every non-empty input, one call and the final one deliver the encoding in lines of 4 * ((len - 1) / 4) characters |
| Departures.LineLost | src/base64.c:193-213 | three bytes in one call and one more in the next: the first line is lost |
| Departures.NothingIsNoLine | src/base64.c:215-234 | the line put out when nothing was encoded is no encoding of nothing |
| Exec.ExecFse | src/uld_dyn.c:1049-1116 | dependency list, load and link in turn: what comes of it, memory after load and memory after link are as the parts say |
| Exec.MemoryWhenRun | src/uld_dyn.c:1049-1116 | when the constructors are called, every relocation slot of every file needed holds what its relocation asks for, an object that no file defines has one zeroed block in the pool at the address that all its slots hold, every other fixup word has its run-time meaning, every other byte of the files' memory is that of the image or zero, and nothing outside that memory and the pool has changed |
| Exec.RunsExactly | src/uld_dyn.c:1049-1116 | a run gets that far if and only if every file can be loaded and every relocation is served, each function defined in time among the rest |
| Exec.CodeRunsInPlace | src/uld_file.c:150-175 | in a loaded file the run address of a link address in a section that stays in flash is the flash address of that byte of the image |

## Left out

- LinkTheorems.FuncDescValuesCorrect: for functions with one definer at or before every file that refers to them, and, when it has no memory, a link address whose two words a link does not write.
- LinkTheorems.FuncDescsCorrect: states what the descriptor says, not that all pointers to a function are equal; each file may use its own descriptor.
- LinkOutcome.LinkEndsExactly: for relocations on sections, on objects and on functions, whose symbols have the type of their relocation in every file; a function has at most one definition and none at address 0, an object no definition at address 0.  Whether and where they are defined is open.
- Exec.ExecFse: up to the call of the constructors; on an error of the dependency search the code goes on with a negative count, which is taken for a trap.
- LinkTheorems.PoolCorrect: nothing about `*dl_alloc_size`, which the code does not set, nor about the alignment of the first pool address.
- LinkTheorems.DataSlotsCorrect: an ABS32 slot is overwritten, so addends are not part of the result.
- Linker.LinkFileList: the dynamic tables are given as lists of symbols and relocations, not decoded from bytes; the branch for a relocation pointer behind the current one cannot be reached and has no counterpart.
- DepList.CreateDepList: acyclic DT_NEEDED graphs only; on a cycle the recursion of the code does not end.
- DepLoad.LoadDepList: the section array has the size of the count, and memory segments have no gaps; shorter arrays are covered by CreateFile, gaps by AllocMemSections for one file and GapExact for what follows it.
- LoadTheorems.FixupWordMeaning: for fixups whose word lies inside one section.
- SectionList.ListedSorted: for lists that do not mix sections with and without address within one type.
- FlashMover.MoveFse: section lists are given as what `uld_load_create_file` makes of the image, at most 20 of them; header bytes are not decoded, so that fixups leave them alone is part of what is asked of an image.
- FlashRuns.RunTranslatesExactly: for null windows below the files region.
- FlashRuns.RunForgets: for images whose fixup words are fine from the start, as in `RunTranslates`.
- Patcher.ApplyRofixups: the section list is given, as read from objdump, and the words of .rofixup are those of the file; what was patched before an exception is not described.
- FileTable.ParseFsTable: chains of next pointers that come to an end; on a cycle the script does not end.
- FileTable.GenHdr: the assembler directives are taken as the bytes they stand for, with symbols resolved.
- Base64.State.EncodeCbWrite: the callback is one that succeeds; an error from it ends the driver early. The `puts` drivers, which differ only in the callback, are not modelled.
- Flash lock state: writes are made with unlocked flash; that flash stays unlocked after a move is not modelled.
- The status flags that record that fixups are done are not modelled; nothing reads them.
- Address ranges that wrap around the top of the address space are outside what is asked of images, tables and memory.
- Semihosting, start-up code, system calls, GDB scripts, table printing and the argument selection of `src/uld.c`: input, output and fixed tables.
- Number printing and string functions of `src/util.c` and `src/libc.c`: easy beside the rest.
- GOTOFFFUNCDESC patching of .plt and the firmware CRC writing of `scripts/patch-uld-elf.py`: straight loops of the same kind as the fixups.
