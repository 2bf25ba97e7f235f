# Verified models of the kernel's allocator, page tables and parsers

This project models, in Dafny, the parts of the kernel whose correctness depends on state that is
edited in place: the heap prototype of `test.c`, the ARMv7 page tables from boot to the switch away
from sections, the flattened device tree walker, the string conversions and the ATAG list. To
check all of it, run `dafny verify dfyconfig.toml`.

**The heap** (`HeapBlocks`, `HeapRuns`, `KernelHeap`). The page is an array of 1024 words. Every
block has a 16-byte header of four words (status, size, next, prev), and the class edits those words
in the order in which the C statements do. `HeapBlocks` describes the page as a list of blocks and
gives the effect of `kmalloc` and `kfree` on that list; `KernelHeap` proves that the linked headers
have exactly this effect; `HeapRuns` proves what follows for whole runs. The central fact is that
the list is canonical, so the live blocks alone determine it. Sizes are 32-bit words, and the
doubling in `kmalloc` wraps: requests above 2^31 get a block of no bytes, which is proved rather
than excluded.

**The page tables** (`MmuWalk`, `Descriptors`, `DescriptorFields`, `DescriptorCodec`, `Armv7Mmu`,
`ArchMmu`, `MmuSplit`). Physical memory is an array of 32-bit words, a pointer of the kernel is an address in
it (the kernel reaches its tables through mappings that keep addresses), and TTBR0, TTBR1, TTBCR and
SCTLR are fields of a class. `MmuWalk.Walk` is the meaning of the tables: the short-descriptor format
of the ARM Architecture Reference Manual ARMv7-A, sections B3.5.1 and B3.5.4, as far as the kernel
reads it (sections, large and small pages; a second-level type of 0b11 is no mapping). The masks and
shifts of the code are kept as bit operations (`Bits`), and lemmas turn them into arithmetic.

**Boot and the switch** (`MemLayout`, `Boot`, `KernPages`, `KernTables`, `KernSwitch`). The loops that
fill one directory with sections, then clear a table region, map the kernel's regions into it and
install it, with what they leave mapped at each stage. The mapping calls of `vexpress_init` are made
for any list of regions inside the 512 MiB window and a table region at any multiple of 1 MiB.
`KernPages` is the page arithmetic of the mapping loop, which chooses a table by `+` and an entry and
a page frame by `|`; `KernSwitch` puts the stages together.

**The device tree** (`FdtTree`, `FdtBytes`, `Fdt`, `FdtWalk`). A tree, its token stream by sections
5.4.1 and 5.4.2 of the Devicetree Specification (NOP tokens anywhere), its bytes, the header of
section 5.2, and the walker over those bytes on a little-endian CPU. The methods take the tokens at their argument as a ghost; the
code sees bytes only.

**Strings and ATAGs** (`Str`, `Atag`, `AtagList`, `AtagRuns`). Byte arrays with terminators; ATAG
memory is an array of words with addresses counted in words, and `AtagList` encodes a list of tags.

Where the code and its comments or the format disagree, the model follows the code:

- `strcmp` is 0 when the first string is a prefix of the second, so the device tree searches find
  names that only start with the wanted one.
- `init_get_mem_atag` and its caller speak of the largest region; one greedy pass can miss it
  (`Atag.ChosenRegionNotLargest`). `AtagRuns.FindsLargestExactly` says when it does not, for lists in
  address order, and `AtagRuns.FrontLoadedFindsLargest` gives a condition for lists in any order.
- vexpress_init.c:105 bases the 2 MiB table region at a multiple of 1 MiB. At an odd one the second
  GiB of the high half repeats the first, and the region's own second half is mapped to the frames of
  its first (`KernSwitch.SeparatedExactly`, `KernTables.HighHalfExactly`,
  `KernPages.TableRegionMismapped`).
- `init_map_kern_pgtb` maps every byte of a region only if its first page is a multiple of its size
  rounded up to a power of two (`KernPages.RegionMappedExactly`); the linker script aligns to pages
  only. `KernPages.RegionOwnsExactly` says which pages of any region get their own frame.
- KERN_USER is "implicit kernel rw" in include/mm/mmu.h:13, and the code gives the kernel read-only
  access (`ArchMmu.AccessGranted`, by the names of the permissions in armv7_mmu.h).
- `strrev` of an empty string exchanges the terminator with the byte before the string.
- `arch_mmu_get_pgtb_alignment` asks for 4096-byte alignment, which does not keep the tables of
  `arch_mmu_create_new_entry` apart (`MmuSplit.PageAlignmentIsNotEnough`).
- A PG_TAB_INVAL entry stores the low bits of the address it is given as its type; it unmaps the page
  only when those are 0b00 or 0b11.
- For N = 7 the user directory is 128-byte aligned, so `armv7_mmu_set_user_pgd` can let a flag reach
  the address.
- `itoa` writes "-" for the smallest int.
- `fdt_get_root_node` takes the first word of the structure block for the root, although NOP tokens
  may come first. `fdt_get_node` then answers the NOP for the names "" and "/"
  (`Fdt.NodeFoundExactly`).

## Model

| member | source | states |
|---|---|---|
| KernelHeap.KernelHeap.HeapInit | test.c:296-306 | the page holds one free block of 4080 bytes, whatever was in it: its four header words are the free mark, 4080 and two NULLs; the invariant holds |
| KernelHeap.KernelHeap.HeaderWords | test.c:11-19 | the four words at every block are its mark, its size and the addresses of its neighbours |
| KernelHeap.KernelHeap.FindBestFit | test.c:308-338 | returns the header of the best fit and says whether it is exact; NULL exactly when no free block has the size or exceeds it by more than a header |
| KernelHeap.KernelHeap.BreakChunk | test.c:268-294 | breaks a block exactly when it is free and exceeds the size by more than a header: the new header sits at its tail and the page changes by exactly the words of the insertion; any other block is left alone |
| KernelHeap.KernelHeap.SplitNode | test.c:276-289 | the pointer writes of an insertion, word by word |
| KernelHeap.KernelHeap.Kmalloc | test.c:152-188 | refines the block list specification of kmalloc, keeps the invariant and changes no byte of a live payload; NULL exactly for 0 bytes or when no free block has the rounded size or exceeds it by more than a header; the exit for "no block large enough" is never reached |
| KernelHeap.KernelHeap.Take | test.c:168-180 | takes the block found, exact or split off, and returns the address behind its header |
| KernelHeap.KernelHeap.Kfree | test.c:190-227 | refines the block list specification of kfree, keeps the invariant and every other live payload, and leaves the old header marked free, so that freeing again does nothing |
| KernelHeap.KernelHeap.FreeNode | test.c:197-222 | marks, eats the right neighbour, is eaten by the left one: the page is the specified one |
| KernelHeap.KernelHeap.LookRight | test.c:202-211 | merges with the next block exactly when that is free |
| KernelHeap.KernelHeap.LookLeft | test.c:213-222 | merges into the previous block exactly when that is free |
| KernelHeap.KernelHeap.Absorb | test.c:204-210 | swallowing a neighbour writes next, the prev of the block after, and size |
| KernelHeap.LinksAreInverse | test.c:268-306 | next and prev are mutual inverses, next leads strictly upwards, and only the ends have NULL: the list is acyclic and in address order |
| KernelHeap.CallersCannotBreakHeap | test.c:152-188 | nothing a caller stores inside live payloads disturbs the list |
| KernelHeap.LinkedMerge | test.c:202-222 | the words of a merge represent the merged list |
| KernelHeap.LinkedCarve | test.c:276-289 | the words of a split represent the split list, new status apart |
| KernelHeap.AllocKeeps | test.c:152-188 | an allocation writes no word of a payload that was live |
| KernelHeap.FreeKeeps | test.c:190-227 | a release writes no word of a payload that stays live |
| KernelHeap.FreedStatus | test.c:200-222 | the header of a freed block stays marked free when it is merged away |
| HeapRuns.StepInvariant | test.c:152-227 | every kmalloc and kfree keeps the tiling of the page and canonical form |
| HeapRuns.RunInvariant | test.c:152-227 | after any run blocks tile the page, sizes and headers add up to 4096, no two neighbours are free |
| HeapRuns.InitialInvariant | test.c:296-306 | the initial page satisfies the invariant and has no live block |
| HeapRuns.CanonicalUnique | test.c:190-227 | a canonical tiling is determined by its live blocks |
| HeapRuns.RunsWithSameLiveAgree | test.c:152-227 | two runs that end with the same live blocks end with the same list, whatever happened before |
| HeapRuns.FreesCommute | test.c:190-227 | two kfrees commute |
| HeapRuns.DoubleFreeIsIgnored | test.c:196-196 | freeing twice is freeing once |
| HeapRuns.FreeUndoesMalloc | test.c:152-227 | kfree of what kmalloc returned restores exactly the list before, for exact fits, splits and failures |
| HeapRuns.FreeAllRestoresPage | test.c:190-227 | after any run, freeing all live blocks in any order restores the single initial block |
| HeapRuns.RunFrees | test.c:190-227 | a sequence of frees removes exactly the blocks it names |
| HeapRuns.LiveBlocksStay | test.c:152-227 | a block keeps its address and size through any run that does not free it |
| HeapRuns.LivePayloadsArePowers | test.c:159-163 | in a run of requests up to 2^31 every live payload is a power of two of at least 16 bytes |
| HeapRuns.RoundedMeaning | test.c:159-163 | the reserved size is the least power of two at least n and 16 exactly when n is at most 2^31, and 0 above |
| HeapRuns.FitComplete | test.c:308-338 | a fit is found exactly when some block has the size or can be split |
| HeapRuns.FitUnique | test.c:308-338 | first exact fit, else the lowest of the smallest blocks that can be split: only one block answers this |
| HeapRuns.KmallocEffect | test.c:152-188 | NULL exactly when n is 0 or nothing fits; otherwise one new live block, aligned, inside the page and clear of all others, which stay as they are |
| HeapRuns.KmallocFails | test.c:165-184 | NULL exactly when the request is 0 or no free block has the rounded size or exceeds it by more than 16 bytes |
| HeapRuns.KmallocTakes | test.c:268-338 | the payload is the tail of a free block: the first of exactly the rounded size or, without one, the lowest of the smallest that exceed it by more than 16 bytes |
| HeapRuns.SplitsKeepPayloads | test.c:152-188 | a call on a page whose blocks all hold 16 bytes or more leaves it so exactly when it asks for at most 2^31 or answers NULL |
| HeapRuns.PayloadsAtLeast16 | test.c:152-227 | in every state of a run of requests up to 2^31 every block, free or live, has at least 16 payload bytes |
| HeapRuns.KfreeEffect | test.c:190-227 | removes exactly the live block with that payload |
| HeapRuns.FragmentationBound | test.c:165-184 | after a failed request there are at most L + 1 free blocks and their total is bounded by (L + 1) times the rounded size plus one header |
| HeapBlocks.ReleaseCanonical | test.c:202-222 | one look to each side restores canonical form |
| HeapBlocks.TilesExtent | test.c:268-294 | headers and payloads of a tiling add up to the range |
| Bits.HighestBitIsLargestPower | test.c:352-360 | the or-shifts yield the largest power of two at most x, 0 for 0 |
| Bits.PowerOfTwoTest | include/util/bits.h:95-97 | the test is true exactly for the powers of two |
| Bits.IdxMsbAt | include/util/bits.h:28-36 | one more than the index of the top bit |
| Bits.EndSwapMeaning | include/util/bits.h:139-146 | byte i moves to byte 3 - i, and the result is a word |
| Bits.OrFamily | source/arch/arm/armv7/mmu/armv7_arch_mmu.c:118-118 | addresses built by or-ing a shifted index into a base are pairwise different exactly when the base is aligned to the family's rounded size, and then equal the sums |
| Armv7Mmu.HigherHalfIsTopBits | source/arch/arm/armv7/mmu/armv7_mmu.c:338-351 | the test agrees with section B3.5.4: some of the top N bits are set |
| Armv7Mmu.Mmu.Enabled | include/arch/arm/armv7/armv7_mmu.h:201-203 | bit 0 of SCTLR |
| Armv7Mmu.Mmu.PgDiv | include/arch/arm/armv7/armv7_mmu.h:211-213 | the low three bits of TTBCR |
| Armv7Mmu.Mmu.VirtToPhy | source/arch/arm/armv7/mmu/armv7_mmu.c:45-84 | equals the table walk, 0 where that fails, the identity while the MMU is off |
| Armv7Mmu.Mmu.TranslatedMeaning | source/arch/arm/armv7/mmu/armv7_mmu.c:45-84 | off, an address is its own translation; on, a mapped one goes where the walk leads and any other to 0 |
| Armv7Mmu.Mmu.LeafAddr | source/arch/arm/armv7/mmu/armv7_mmu.c:69-77 | decodes a second-level word as the walk does |
| Armv7Mmu.Mmu.GetKernPgd | source/arch/arm/armv7/mmu/armv7_mmu.c:92-100 | TTBR1 rounded down to 16 KiB, 0 while off |
| Armv7Mmu.Mmu.GetUserPgd | source/arch/arm/armv7/mmu/armv7_mmu.c:108-122 | TTBR0 rounded down to the size of the user directory, 0 while off |
| Armv7Mmu.Mmu.SetKernPgd | source/arch/arm/armv7/mmu/armv7_mmu.c:134-149 | EALIGN unless 16 KiB aligned; otherwise the directory read back is the one set |
| Armv7Mmu.Mmu.SetUserPgd | source/arch/arm/armv7/mmu/armv7_mmu.c:161-176 | EALIGN unless aligned; otherwise TTBR0 is the address or-ed with the flags, and the directory read back is the one set exactly when the flags stay below the alignment or bit 7 was set anyway |
| Armv7Mmu.FlaggedDir | source/arch/arm/armv7/mmu/armv7_mmu.c:161-176 | for which flags an or-ed directory address survives the mask |
| Armv7Mmu.Mmu.DirectoryOf | source/arch/arm/armv7/mmu/armv7_mmu.c:197-203 | the directory chosen for an address is the one whose slot the walk reads |
| Armv7Mmu.Mmu.MapPgd | source/arch/arm/armv7/mmu/armv7_mmu.c:191-219 | the error for each bad case, memory untouched then; otherwise one descriptor of the active directory is written |
| Armv7Mmu.Mmu.MapNewPgd | source/arch/arm/armv7/mmu/armv7_mmu.c:231-245 | the same in a directory that is not active |
| Armv7Mmu.Mmu.MapPgtb | source/arch/arm/armv7/mmu/armv7_mmu.c:262-300 | the error for each bad case, ENOTFND when no table serves the address, memory untouched then; otherwise one descriptor of the serving table is written |
| Armv7Mmu.Mmu.MapInDirectory | source/arch/arm/armv7/mmu/armv7_mmu.c:282-288 | writes one descriptor when the slot holds a table, ENOTFND and no change otherwise |
| Armv7Mmu.Mmu.MapNewPgtb | source/arch/arm/armv7/mmu/armv7_mmu.c:312-326 | the same in a table that is not active |
| Armv7Mmu.Mmu.CreatePgtbEntry | source/arch/arm/armv7/mmu/armv7_mmu.c:379-401 | writes the packed word at the entry the walk reads for that address |
| Armv7Mmu.Mmu.CreatePgdEntry | source/arch/arm/armv7/mmu/armv7_mmu.c:412-442 | writes the packed word at the slot of that address |
| Armv7Mmu.Mmu.GetPgdEntry | source/arch/arm/armv7/mmu/armv7_mmu.c:454-491 | unpacks the slot of that address, ENOTFND without touching the result when it is invalid, EINVAL without a result to fill in |
| Armv7Mmu.UnpackIsDecode | source/arch/arm/armv7/mmu/armv7_mmu.c:454-491 | an entry is found exactly where the walk finds one, with the same type and base |
| Descriptors.PgtbWordSmall | source/arch/arm/armv7/mmu/armv7_mmu.c:379-401 | a small-page word decodes to the page of its address whatever the permission |
| Descriptors.PgtbWordInvalid | source/arch/arm/armv7/mmu/armv7_mmu.c:379-401 | an invalidating word is a fault exactly when the low address bits are 0b00 or 0b11 |
| Descriptors.PgdWordTable | source/arch/arm/armv7/mmu/armv7_mmu.c:412-442 | a table word decodes to the table of its address |
| Descriptors.PgdWordSection | source/arch/arm/armv7/mmu/armv7_mmu.c:412-442 | a section word decodes to the section of its address |
| Descriptors.PgdWordInvalid | source/arch/arm/armv7/mmu/armv7_mmu.c:412-442 | an invalid word decodes to a fault |
| DescriptorFields.SmallPageFields | source/arch/arm/armv7/mmu/armv7_mmu.c:379-401 | a small-page word is its page, permission, flags and 0b10; permission and flags are both as given exactly when they share no bit, and then bits 5:4 read back the permission |
| DescriptorFields.LargePageFields | source/arch/arm/armv7/mmu/armv7_mmu.c:379-401 | a large-page word is its 64 KiB page, permission, flags and 0b01 |
| DescriptorFields.TableFieldsSum | source/arch/arm/armv7/mmu/armv7_mmu.c:412-442 | a table word is its table, domain, flags and 0b01; domain and flags are both as given exactly when they share no bit, and then bits 8:5 read back the domain |
| DescriptorFields.SectionFieldsSum | source/arch/arm/armv7/mmu/armv7_mmu.c:412-442 | a section word is its section, permission, domain, flags and 0b10, and bits 11:10 and 8:5 read back permission and domain |
| DescriptorFields.InvalidFieldsSum | source/arch/arm/armv7/mmu/armv7_mmu.c:412-442 | an invalidating directory word holds domain and flags only |
| DescriptorCodec.TableRoundTrip | source/arch/arm/armv7/mmu/armv7_mmu.c:412-491 | get after create returns base, domain, flags and type of a table entry, permission 0, exactly when the domain is below 16 and the flags are under the mask |
| DescriptorCodec.SectionRoundTrip | source/arch/arm/armv7/mmu/armv7_mmu.c:412-491 | get after create returns base, domain, flags, permission and type of a section entry exactly when the domain is below 16 and the flags are under the mask |
| MmuWalk.SlotAddrInjective | source/arch/arm/armv7/mmu/armv7_mmu.c:197-203 | the slots of the two directories have different descriptors exactly when the used parts do not overlap; sharing one directory is fine |
| MmuWalk.SlotAddrMeaning | source/arch/arm/armv7/mmu/armv7_mmu.c:51-59 | the descriptor of an address lies in the directory of TTBR1 when one of its top N bits is set, else in that of TTBR0, at its megabyte |
| MmuWalk.WalkMeaning | source/arch/arm/armv7/mmu/armv7_mmu.c:61-78 | the translation by the bits of the two words read: section, small page, large page or none |
| MmuWalk.TableWrite | source/arch/arm/armv7/mmu/armv7_mmu.c:262-300 | writing one page descriptor changes the translation of that page and of nothing else |
| MmuWalk.DirWrite | source/arch/arm/armv7/mmu/armv7_mmu.c:191-219 | writing one slot leaves every address outside that slot translating as before |
| MmuWalk.DirWriteSeparated | source/arch/arm/armv7/mmu/armv7_mmu.c:191-219 | tables stay separated exactly when the new table is clear of the directories and unshared |
| ArchMmu.CreateEntry | source/arch/arm/armv7/mmu/armv7_arch_mmu.c:49-79 | ENOTENB while off; ESUCC for a directory type; for a page type ESUCC exactly when the slot holds a table, else ENOTFND; any error leaves memory alone; a mapping word is the base, the permission or domain of the access flags, and the type |
| ArchMmu.EntryFields | source/arch/arm/armv7/mmu/armv7_arch_mmu.c:49-79 | the words of PG_TAB and PG_DIR with their permission and domain read back |
| ArchMmu.AccessGranted | source/arch/arm/armv7/mmu/armv7_arch_mmu.c:200-250 | user space reads exactly USER and KERN_USER pages and writes exactly USER ones, the kernel writes all but KERN_USER and KERNEL_RO, and the user domain is that of the pages user space reads |
| ArchMmu.MapPageEffect | source/arch/arm/armv7/mmu/armv7_arch_mmu.c:49-79 | PG_TAB maps exactly one page, every other address translates as before |
| ArchMmu.UnmapPageEffect | source/arch/arm/armv7/mmu/armv7_arch_mmu.c:49-79 | PG_TAB_INVAL changes at most one page and unmaps it exactly when the given address ends in 0b00 or 0b11 |
| ArchMmu.MapTableEffect | source/arch/arm/armv7/mmu/armv7_arch_mmu.c:49-79 | PG_DIR hands exactly one 1 MiB slot to the new table; separation survives exactly when that table is clear and unshared |
| ArchMmu.UnmapTableEffect | source/arch/arm/armv7/mmu/armv7_arch_mmu.c:49-79 | PG_DIR_INVAL unmaps exactly one 1 MiB slot |
| ArchMmu.RunRefines | source/arch/arm/armv7/mmu/armv7_arch_mmu.c:49-79 | over any run of calls the tables refine an abstract map of pages and slots, address by address, and stay separated |
| MmuSplit.UserPgdHoldsLowHalf | source/arch/arm/armv7/mmu/armv7_arch_mmu.c:151-183 | the user directory is aligned to its size and holds the slots of exactly the addresses below the kernel's, for every N |
| MmuSplit.TableRegionsTotal | source/arch/arm/armv7/mmu/armv7_arch_mmu.c:125-149 | user and kernel table regions total 4 MiB for N > 0 and are 4 MiB each for N = 0 |
| MmuSplit.NewIndexMeaning | source/arch/arm/armv7/mmu/armv7_arch_mmu.c:108-116 | the table index counts slots from the base of the half and is in range |
| MmuSplit.NewTablesDistinct | source/arch/arm/armv7/mmu/armv7_arch_mmu.c:118-118 | slots of one half get different tables exactly when the region base is aligned to the region's rounded size; the tables then lie in order inside the region |
| MmuSplit.NewEntriesDistinct | source/arch/arm/armv7/mmu/armv7_arch_mmu.c:108-118 | in such a region two addresses of one half share a descriptor exactly when they share a page |
| MmuSplit.PageAlignmentIsNotEnough | source/arch/arm/armv7/mmu/armv7_arch_mmu.c:189-191 | a 4096-byte aligned base that gives two kernel slots one table |
| MmuSplit.CreateNewEntry | source/arch/arm/armv7/mmu/armv7_arch_mmu.c:81-123 | writes one descriptor, at the place computed for its half, with the base, permission or domain, and type of the entry |
| MmuSplit.FindIndex | source/arch/arm/armv7/mmu/armv7_arch_mmu.c:108-116 | computes the index specified |
| MemLayout.PhyToKvmMeaning | include/memlayout.h:219-222 | any address keeps its offset into 512 MiB and moves to the virtual window |
| MemLayout.KvmToPhyMeaning | include/memlayout.h:203-206 | any address keeps its offset into 512 MiB and moves to the physical window |
| MemLayout.WindowsAreInverse | include/memlayout.h:203-222 | each conversion undoes the other on exactly one 512 MiB window |
| Boot.InitPgDirEntry | source/mach/vexpress_a9/boot/vexpress_boot_init.c:162-166 | one section descriptor is written, at the slot of the virtual address |
| Boot.SectionWordFields | source/mach/vexpress_a9/boot/vexpress_boot_init.c:162-166 | a boot section holds its megabyte, permission 1 (kernel and user read-write), domain 0 and the type |
| Boot.InitUserPgDir | source/mach/vexpress_a9/boot/vexpress_boot_init.c:111-125 | the lower 2048 slots hold one-to-one sections, TTBR0 is set, nothing else changes |
| Boot.MapImageSection | source/mach/vexpress_a9/boot/vexpress_boot_init.c:140-147 | one iteration adds the next section of the image at the next slot of the virtual window |
| Boot.InitKernPgDir | source/mach/vexpress_a9/boot/vexpress_boot_init.c:136-150 | the slots of the image in the virtual window hold its sections, TTBR1 is set, the lower half of the directory is untouched |
| Boot.SectionsStayInWindow | source/mach/vexpress_a9/boot/vexpress_boot_init.c:140-147 | the sections go to consecutive slots exactly when the last of them starts inside the 512 MiB window; past it the slots wrap around |
| Boot.BootInit | source/mach/vexpress_a9/boot/vexpress_boot_init.c:49-100 | both directories in one, MMU on with N = 1 and AFE set, other SCTLR bits kept: the low 2 GiB are one to one, and the image is found at its virtual addresses when the sections cover it |
| Boot.BootLowIdentity | source/mach/vexpress_a9/boot/vexpress_boot_init.c:111-125 | every address below 2 GiB translates to itself |
| Boot.BootKernelWindow | source/mach/vexpress_a9/boot/vexpress_boot_init.c:136-150 | every byte of a written section translates from its virtual address to itself |
| Boot.SectionsCoverImage | source/mach/vexpress_a9/boot/vexpress_boot_init.c:136-150 | the section count covers the image exactly when offset and remainder fit one section together |
| KernPages.PgCntCovers | source/mach/vexpress_a9/init/vexpress_init.c:484-489 | the pages counted hold the region exactly when it is empty or larger than 2048 bytes, and are less than twice as much |
| KernPages.PgCntPower | source/mach/vexpress_a9/init/vexpress_init.c:484-489 | above 2048 bytes the count is the least power of two whose pages hold the region |
| KernPages.AlignedLoop | source/mach/vexpress_a9/init/vexpress_init.c:491-507 | from a start aligned to the count, the loop maps consecutive pages, each to its own frame, and nothing else |
| KernPages.UnalignedLoop | source/mach/vexpress_a9/init/vexpress_init.c:491-507 | otherwise some page of the region gets no iteration that writes its frame |
| KernPages.LoopCovers | source/mach/vexpress_a9/init/vexpress_init.c:491-507 | each of n pages, more than half the count, gets its own frame exactly when the first is a multiple of the count and the count holds them |
| KernPages.LoopOwnsExactly | source/mach/vexpress_a9/init/vexpress_init.c:491-507 | from any start and for any count, a page gets its own frame exactly when it is one of those counted and its distance from the start has no bit in common with the start |
| KernPages.RegionMappedExactly | source/mach/vexpress_a9/init/vexpress_init.c:465-512 | one call maps every byte of a nonempty region, wherever it starts, exactly when its first page is a multiple of its rounded size and the pages counted reach its end |
| KernPages.RegionOwnsExactly | source/mach/vexpress_a9/init/vexpress_init.c:465-512 | the pages that one call maps to their own frames, for any region in the window |
| KernPages.OddRegionMissesPage | source/mach/vexpress_a9/init/vexpress_init.c:491-507 | a region of two pages from an odd page on leaves its second page unmapped |
| KernPages.TableRegionMismapped | source/mach/vexpress_a9/init/vexpress_init.c:491-507 | a region of more than 1 and up to 2 MiB at an odd MiB, as the table region itself may be, has the words of its second MiB mapped to the frames of its first |
| KernPages.FirstMegabyteImage | source/mach/vexpress_a9/init/vexpress_init.c:105-105 | the table region at 0x6010_0000: page 0x200 gets frame 0x100 |
| KernPages.PlacedIsIdentity | source/mach/vexpress_a9/init/vexpress_init.c:491-507 | a call for an aligned region maps pages to their own frames only |
| KernPages.PlacedRegionsIdentity | source/mach/vexpress_a9/init/vexpress_init.c:178-201 | when all regions are aligned the calls map pages to their own frames only |
| KernPages.RegionsCovered | source/mach/vexpress_a9/init/vexpress_init.c:178-201 | a byte of an aligned region that its count holds keeps its own frame through all the calls unless an unaligned region writes over it |
| KernPages.RegionsOwnExactly | source/mach/vexpress_a9/init/vexpress_init.c:178-201 | after the calls for any list of regions a page has its own frame exactly when some call gave it and every later call that writes its word does so too |
| KernTables.TableJoins | source/mach/vexpress_a9/init/vexpress_init.c:434-436 | the slots get consecutive tables, or the first 1024 tables twice when the region lies at an odd MiB |
| KernTables.TablesDistinct | source/mach/vexpress_a9/init/vexpress_init.c:434-436 | the 2048 slots get different tables exactly when the region is a multiple of 2 MiB |
| KernTables.OddRegionShares | source/mach/vexpress_a9/init/vexpress_init.c:105-105 | at 0x6010_0000 the slots of 0x8000_0000 and 0xC000_0000 share a table |
| KernTables.LoopDescriptor | source/mach/vexpress_a9/init/vexpress_init.c:495-501 | the entry of iteration i decodes to the page frame `base or i` |
| KernTables.LoopFields | source/mach/vexpress_a9/init/vexpress_init.c:495-501 | the word of iteration i has the permission and flags of the entry given |
| KernTables.LoopIndex | source/mach/vexpress_a9/init/vexpress_init.c:491-493 | the table index of iteration i counts whole MiB of the sum of offset and i pages |
| KernTables.InitMapKernPgtb | source/mach/vexpress_a9/init/vexpress_init.c:465-512 | the table region holds what it held, overwritten by exactly the words of the loop, each with its frame, the permission and flags given and the type of a small page, for any region in the window; nothing else is written; EINVAL for a missing argument |
| KernTables.MapOnePage | source/mach/vexpress_a9/init/vexpress_init.c:491-507 | one iteration writes one word with its frame and the permission and flags given |
| KernTables.MapPages | source/mach/vexpress_a9/init/vexpress_init.c:491-507 | the loop writes exactly the words and frames of its iterations with the attributes given |
| KernTables.SetupLoopSplits | source/mach/vexpress_a9/init/vexpress_init.c:424-440 | the directory loop reaches a different slot in every iteration exactly for N = 0 and N = 1 |
| KernTables.InitSetupKernPgtb | source/mach/vexpress_a9/init/vexpress_init.c:417-451 | installs `base or (i << 10)` with the domain and flags given in every high slot, writes only there, the errors leave memory alone |
| KernTables.HighHalfTranslates | source/mach/vexpress_a9/init/vexpress_init.c:417-512 | with the tables installed a high address translates as the word of the region that serves it says |
| KernTables.KernelWindowTranslates | source/mach/vexpress_a9/init/vexpress_init.c:417-512 | a byte of the physical window is found at its virtual address exactly when its page has its own frame |
| KernTables.HighHalfExactly | source/mach/vexpress_a9/init/vexpress_init.c:417-512 | once something is mapped, the high half maps the pages of the region's words and nothing else exactly when the region is a multiple of 2 MiB |
| KernSwitch.LowHalfKept | source/mach/vexpress_a9/init/vexpress_init.c:417-512 | the low half translates as before, sections and tables alike |
| KernSwitch.SeparatedExactly | source/mach/vexpress_a9/init/vexpress_init.c:417-451 | the installed tables are distinct and hold no directory entry exactly when the region is a multiple of 2 MiB |
| KernSwitch.ClearRegion | source/mach/vexpress_a9/init/vexpress_init.c:175-176 | every word of the region is 0, so it maps nothing; nothing else changes |
| KernSwitch.MapRegions | source/mach/vexpress_a9/init/vexpress_init.c:178-201 | the calls for a list of regions leave the words of all of them with the attributes given, later ones last, and no other word changes |
| KernSwitch.SwitchToTables | source/mach/vexpress_a9/init/vexpress_init.c:175-212 | clear, map any list of regions, install: of the physical window exactly the bytes whose page has its own frame after the calls are found at their virtual addresses, every word of the tables has the attributes given, the low half is unchanged; nothing else is mapped and the tables are separated exactly for a region at a multiple of 2 MiB |
| KernSwitch.BootThenSwitch | source/mach/vexpress_a9/init/vexpress_init.c:175-212 | from boot through the switch: the low 2 GiB stay one to one, the bytes of the sections that boot wrote are found before, and afterwards exactly those bytes of the window whose page has its own frame |
| FdtBytes.ReadBeAt | include/util/bits.h:211-219 | swapping a little-endian load recovers the big-endian number stored |
| FdtBytes.StoredBytes | include/util/bits.h:211-219 | any four bytes are the encoding of the number read there |
| FdtBytes.HeaderFields | include/util/fdt.h:33-44 | on the bytes of a header the walker reads its magic number and its two block offsets |
| FdtBytes.SampleHeader | include/util/fdt.h:33-44 | the 40 bytes of one header |
| FdtBytes.SampleTokens | include/util/fdt.h:11-16 | the bytes of a named node, an end of node, a NOP and an end token |
| FdtBytes.SampleProperty | include/util/fdt.h:63-68 | the bytes of a property with its padding |
| FdtBytes.BlockIsStream | source/util/fdt.c:253-271 | the bytes of an encoded token list are that token stream at any aligned address |
| Fdt.GetTagSize | source/util/fdt.c:253-271 | the unpadded size of the token at the address |
| Fdt.GetNextTag | source/util/fdt.c:235-244 | the address of the next token, NULL exactly after the end token |
| Fdt.NextInBlock | source/util/fdt.c:235-244 | a step strictly advances, stays 4-aligned and inside the block |
| Fdt.GetNextNode | source/util/fdt.c:61-79 | the first node beginning behind the given one, NULL when there is none |
| Fdt.GetRootNode | source/util/fdt.c:42-52 | the header base plus the offset of the structure block in the header, NULL without the magic number |
| Fdt.IsUsingFdt | include/util/fdt.h:78-87 | true exactly when the first four bytes are D0 0D FE ED |
| Fdt.GetNode | source/util/fdt.c:89-111 | the first node in stream order that matches by prefix, or the nameless one for a prefix of "/"; the first word if that is a NOP and the name is "" or "/"; NULL for a bad blob or no name |
| Fdt.NodeFoundExactly | source/util/fdt.c:89-111 | that is the first matching node exactly when no NOP comes first or the name is neither "" nor "/" |
| Fdt.NameInMemory | source/util/fdt.c:97-102 | the name read behind a begin tag is the node's, behind a NOP it is empty |
| Fdt.GetProperty | source/util/fdt.c:123-150 | the first property before the next node boundary whose name starts with the key, NULL otherwise or when the token is no node |
| Fdt.GetNextProperty | source/util/fdt.c:160-179 | the next property before the next node boundary, NULL when there is none |
| FdtTree.FlattenedViews | source/util/fdt.c:61-79 | a flattened tree shows its nodes in pre-order, once each, with their own properties, wherever NOPs stand |
| FdtTree.FlattenedEndsOnce | source/util/fdt.c:235-244 | the end token is the last token and occurs once |
| FdtWalk.WalkIsPreorder | source/util/fdt.c:61-79 | repeated next-node steps visit every node of the tree once in pre-order at rising addresses, then NULL |
| FdtWalk.StopsAreNodes | source/util/fdt.c:61-79 | from any token the walk stops at that token and then at exactly the nodes behind it |
| FdtWalk.BlobWalkIsPreorder | source/util/fdt.c:42-79 | from the bytes of any header and tree: the walk from the root pointer meets every node of the tree once in pre-order at rising addresses, after one stop at a leading NOP if there is one |
| FdtWalk.RootIsFirstWord | source/util/fdt.c:42-52 | the word returned is the root exactly when no NOP comes first |
| FdtWalk.FindNodeIsFirst | source/util/fdt.c:89-111 | the node found is the first match of the tree in pre-order, NULL exactly when nothing matches |
| FdtWalk.SlashFindsRoot | source/util/fdt.c:89-111 | "/" finds the root |
| FdtWalk.FindPropIsFirst | source/util/fdt.c:123-150 | the property found is the first match among that node's own ones, never a child's or sibling's; NULL exactly when none matches |
| FdtWalk.NextPropIsSuccessor | source/util/fdt.c:160-179 | stepping enumerates exactly the remaining own properties in order |
| Str.Strlen | source/util/str.c:300-313 | the length up to the terminator, -1 for NULL |
| Str.Strcmp | source/util/str.c:104-120 | 0 exactly when the first string is a prefix of the second, else the difference at the first mismatch; never reads past a terminator |
| Str.Strrev | source/util/str.c:269-286 | reverses a non-empty string in place and touches nothing else; for an empty one it exchanges the terminator and the byte before |
| Str.EmptyReversal | source/util/str.c:269-286 | an empty string stays one exactly when the byte before it is 0 |
| Str.ReverseTwice | source/util/str.c:269-286 | reversing twice restores the string |
| Str.Itoa | source/util/str.c:178-211 | writes the decimal text and its terminator in at most 12 bytes, nothing else changes |
| Str.Itox | source/util/str.c:224-256 | writes the uppercase hexadecimal numeral of the value and its terminator in at most 9 bytes, nothing else changes |
| Str.NumeralMeaning | source/util/str.c:178-256 | the text read from its most significant digit has the value, consists of proper digits, is not empty and has no leading zero unless it is "0" |
| Str.NumeralUnique | source/util/str.c:178-256 | it is the only such text |
| Str.ItoaTextMeaning | source/util/str.c:178-211 | the decimal text is that numeral, behind a sign for a negative value; only "-" for INT_MIN |
| Str.Atoi | source/util/str.c:136-163 | the value modulo 2^32 of a string of digits after an optional sign, 0 for any string with another character |
| Str.AtoiUndoesItoa | source/util/str.c:136-211 | atoi(itoa(v)) = v exactly when v is not INT_MIN |
| Str.RevDigitsCanonical | source/util/str.c:224-256 | the digits written are proper digits without leading zeros |
| Str.RevDigitsValue | source/util/str.c:178-256 | the digits written denote the number |
| Str.CanonicalUnique | source/util/str.c:224-256 | a numeral without leading zeros is the only one of its value |
| Atag.GetTag | include/util/atag.h:232-250 | the first instance behind the leading CORE tag, NULL when there is none or no CORE |
| Atag.GetNextTag | include/util/atag.h:201-220 | the next instance, NULL when there is none |
| Atag.GetTagCount | include/util/atag.h:171-186 | the number of instances, CORE included, 0 without a leading CORE |
| Atag.TagExists | include/util/atag.h:125-141 | true exactly when there is an instance |
| Atag.ChainIsInstances | include/util/atag.h:201-220 | searching again from each tag found until NULL meets every instance once, in list order |
| Atag.VisitsAgreeWithCount | include/util/atag.h:171-250 | get then get-next visits as many tags as are counted exactly when the tag is not CORE, and then all of them in order |
| Atag.InitGetMemAtag | source/mach/vexpress_a9/init/vexpress_init.c:337-368 | the region picked from the listed ones by the greedy pass, with the error for each bad case |
| AtagList.EncodedList | include/util/atag.h:8-35 | the words of an encoded list are a list with its headers |
| AtagList.EncodedRegions | include/util/atag.h:8-35 | the memory found in an encoded list is the memory its memory tags describe |
| AtagList.EncodedCount | include/util/atag.h:171-186 | the tags counted in an encoded list are those with the number |
| Atag.ChosenRegion | source/mach/vexpress_a9/init/vexpress_init.c:337-368 | without wrap-around the region consists of listed memory only and is at least as large as each listed region |
| Atag.ChosenRegionNotLargest | source/mach/vexpress_a9/init/vexpress_init.c:326-368 | two neighbours that together exceed the region chosen |
| AtagRuns.ChosenIsPickAll | source/mach/vexpress_a9/init/vexpress_init.c:351-359 | what the pass holds after the last region is what it answers |
| AtagRuns.RunIsFollowed | source/mach/vexpress_a9/init/vexpress_init.c:351-359 | a run of adjacent regions whose first one is taken is followed to its end |
| AtagRuns.FrontLoadedFindsLargest | source/mach/vexpress_a9/init/vexpress_init.c:337-368 | the answer is at least as large as every run of adjacent list neighbours when every run of several is first or begins with a region larger than all before it together |
| AtagRuns.HeldIsRun | source/mach/vexpress_a9/init/vexpress_init.c:351-359 | on a list in address order what is held is always such a run |
| AtagRuns.FindsLargestExactly | source/mach/vexpress_a9/init/vexpress_init.c:337-368 | on a list in address order the answer is at least as large as every run exactly when the first region of some largest run is first in the list or larger than what is held there |

## Left out

- KernelHeap.KernelHeap.Kfree: a pointer whose header position is off the page, or whose status word
  happens to hold the allocated mark without being a live block's, is outside the contract; the code
  would follow its links.
- KernTables.InitMapKernPgtb: proved for N = 1, the split that the boot code sets, and for regions
  inside the 512 MiB window.
- KernTables.InitSetupKernPgtb: proved for N = 1; `SetupLoopSplits` shows that the loop repeats slots
  for N > 1. For N = 0 it would replace the low half too.
- Boot.InitKernPgDir: for images whose last section starts inside the 512 MiB window; for a larger
  one the slots wrap back to 2048 and overwrite the first section of the window.
- Atag.ChosenRegion: a region that reaches the end of the address space may wrap and is excluded.
- AtagRuns.FindsLargestExactly: for lists in address order; in other orders the pass may also join
  regions that are not list neighbours, and only the one direction is proved.
- Fdt.GetNode: assumes a structure block that begins with a begin tag or a NOP, as that of every tree
  does (`FlattenedStart`), and header offsets that lie inside the blob.
- Armv7Mmu.Mmu.CreatePgtbEntry: the address written must be a word address, as the CPU requires.
- `mmu_invalidate_region` and the rest of source/kernel/mm/mmu.c: the loop of the former never
  advances its counter; the rest forwards to `arch_mmu_create_entry`.
- What the CPU makes of access permissions, domains and AFE: their encoding is modelled, and which
  permission and domain each access flag gets.
- TLB invalidation, barriers, CP15 instructions, the vector table and other assembly.
- Pointers into page tables that are not reached at their physical addresses.
- `sprintf`, early `kprintf`, `strncpy` and the memory functions, apart from the clearing of the
  table region.
- `fdt_get_cell_size`, `dump_fdt`, `init_get_mem_fdt`, `init_get_initrd_atag` and
  source/kernel/memlayout.c: unfinished or thin callers of what is modelled.
- `alloc_test`, `dump_entries`, signals and timing in test.c; that `malloc` provides the page.
- source/arch/arm/armv6, which needs files that are not part of this model.
- 16- and 64-bit byte swaps, and big-endian CPUs.
