/** The page directory that the boot code builds before it turns the MMU on
    (source/mach/vexpress_a9/boot/vexpress_boot_init.c): the low 2 GiB one to one, and the kernel
    image at its virtual address, both in 1 MiB sections of one shared directory.
 */
module Boot {
  import opened Bits
  import opened Types
  import opened MmuWalk
  import opened Descriptors
  import opened DescriptorFields
  import opened Armv7Mmu
  import opened MemLayout

  const KERN_PGD_ENTRY_CNT := 2048
  const MB := 0x10_0000

  /** The entry that `init_pg_dir_entry` stores: section, kernel and user read-write. */
  function SectionWord(phyAddr: Word): Word {
    OrWord(OrWord(AndWord(phyAddr, PGD_SECT_MASK), 0x400), 2)
  }

  lemma SectionWordMaps(phyAddr: Word)
    ensures DecodeL1(SectionWord(phyAddr)) == L1Section(AlignDown(phyAddr, SECTION))
  {
    assert Pow2(20) == SECTION by { PowersOfTwo(); }
    SectMask(phyAddr);
    AlignedTwice(phyAddr, SECTION);
    var b := AndWord(phyAddr, PGD_SECT_MASK);
    LowFields(b, 0x400, 0, 2, 20);
    OrZero(OrWord(b, 0x400));
  }

  /** Its fields: the section, permission 1, domain 0, and the type. */
  lemma SectionWordFields(phyAddr: Word)
    ensures SectionWord(phyAddr) == AlignDown(phyAddr, SECTION) + 0x402
    ensures SectionAp(SectionWord(phyAddr)) == 1 && DomainOf(SectionWord(phyAddr)) == 0
  {
    hide And, Or;
    var e := PgdEntry(phyAddr, 0, 0, 1, PgdSection, 0);
    SectionFieldsSum(e);
    OrZero(OrWord(AndWord(phyAddr, PGD_SECT_MASK), 0x400));
  }

  /** The descriptor of a slot in a directory at `dir`. */
  function DirAddr(dir: Word, slot: nat): (a: int)
    requires dir % DIRECTORY == 0 && slot < SLOTS
    ensures WordAddr(a) && a == dir + 4 * slot && dir <= a < dir + DIRECTORY
  {
    MultipleGap(dir, WORD_LIMIT, DIRECTORY);
    MultipleOfPart(dir, DIRECTORY, 4, 0x1000);
    dir + 4 * slot
  }

  /** Only words in lo..hi differ. */
  ghost predicate OnlyChanged(m: Mem, m': Mem, lo: int, hi: int) {
    forall a :: WordAddr(a) && !(lo <= a < hi) ==> Read(m', a) == Read(m, a)
  }

  lemma WriteChanges(m: Mem, m': Mem, lo: int, hi: int, a: int, w: Word)
    requires OnlyChanged(m, m', lo, hi) && WordAddr(a) && lo <= a < hi
    ensures OnlyChanged(m, Write(m', a, w), lo, hi)
  {
    forall b | WordAddr(b) && !(lo <= b < hi) ensures Read(Write(m', a, w), b) == Read(m, b) {
      ReadWrite(m', a, w, b);
    }
  }

  /** The first `count` slots from `first` hold sections whose addresses start at `phy`. */
  ghost predicate Sections(m: Mem, dir: Word, first: nat, count: nat, phy: nat)
    requires dir % DIRECTORY == 0 && first + count <= SLOTS && phy + MB * count <= WORD_LIMIT + MB
  {
    forall i :: 0 <= i < count ==> phy + MB * i < WORD_LIMIT && Read(m, DirAddr(dir, first + i)) == SectionWord(phy + MB * i)
  }

  lemma SectionsStep(m: Mem, dir: Word, first: nat, count: nat, phy: nat)
    requires dir % DIRECTORY == 0 && first + count < SLOTS && phy + MB * count < WORD_LIMIT
    requires Sections(m, dir, first, count, phy)
    ensures Sections(Write(m, DirAddr(dir, first + count), SectionWord(phy + MB * count)), dir, first, count + 1, phy)
  {
    var m' := Write(m, DirAddr(dir, first + count), SectionWord(phy + MB * count));
    forall i | 0 <= i < count + 1
      ensures phy + MB * i < WORD_LIMIT && Read(m', DirAddr(dir, first + i)) == SectionWord(phy + MB * i)
    {
      ReadWrite(m, DirAddr(dir, first + count), SectionWord(phy + MB * count), DirAddr(dir, first + i));
    }
  }

  /** `init_pg_dir_entry` */
  method InitPgDirEntry(mmu: Mmu, pgDir: Word, phyAddr: Word, virtAddr: Word)
    requires mmu.Shape() && pgDir % DIRECTORY == 0
    modifies mmu.mem
    ensures mmu.Memory() == Write(old(mmu.Memory()), DirAddr(pgDir, Slot(virtAddr)), SectionWord(phyAddr))
  {
    SlotIsShift(virtAddr);
    var entry := SectionWord(phyAddr);
    mmu.Store(DirAddr(pgDir, Shr(virtAddr, 20)), entry);
  }

  /** `init_user_pg_dir` */
  method InitUserPgDir(mmu: Mmu, pgDir: Word)
    requires mmu.Shape() && pgDir % DIRECTORY == 0
    modifies mmu.mem, mmu`ttbr0
    ensures mmu.ttbr0 == pgDir
    ensures Sections(mmu.Memory(), pgDir, 0, KERN_PGD_ENTRY_CNT, 0)
    ensures OnlyChanged(old(mmu.Memory()), mmu.Memory(), pgDir, pgDir + 4 * KERN_PGD_ENTRY_CNT)
  {
    for i := 0 to KERN_PGD_ENTRY_CNT
      invariant Sections(mmu.Memory(), pgDir, 0, i, 0)
      invariant OnlyChanged(old(mmu.Memory()), mmu.Memory(), pgDir, pgDir + 4 * KERN_PGD_ENTRY_CNT)
    {
      var pvAddr: Word := MB * i;
      assert Slot(pvAddr) == i;
      SectionsStep(mmu.Memory(), pgDir, 0, i, 0);
      WriteChanges(old(mmu.Memory()), mmu.Memory(), pgDir, pgDir + 4 * KERN_PGD_ENTRY_CNT, DirAddr(pgDir, i), SectionWord(pvAddr));
      InitPgDirEntry(mmu, pgDir, pvAddr, pvAddr);
    }
    mmu.ttbr0 := pgDir;
  }

  /** The slot of the kernel's first byte in the virtual window. */
  function FirstKernSlot(kPhyStart: Word): nat {
    Slot(PhyToKvm(kPhyStart))
  }

  /** Every section that the loop maps starts inside the physical window. */
  predicate ImageFits(kPhyStart: Word, kSz: Word) {
    KP_START <= kPhyStart && kPhyStart + MB * (kSz / MB) < KP_START + WINDOW
  }

  lemma KernVirtual(p: Word)
    requires KP_START <= p < KP_START + WINDOW
    ensures PhyToKvm(p) == p + WINDOW
  {
    PhyToKvmMeaning(p);
  }

  lemma KernSlots(kPhyStart: Word, i: nat)
    requires KP_START <= kPhyStart && kPhyStart + MB * i < KP_START + WINDOW
    ensures Slot(PhyToKvm(kPhyStart + MB * i)) == FirstKernSlot(kPhyStart) + i
    ensures KERN_PGD_ENTRY_CNT <= FirstKernSlot(kPhyStart) + i < KERN_PGD_ENTRY_CNT + 512
  {
    KernVirtual(kPhyStart);
    KernVirtual(kPhyStart + MB * i);
    SlotSum(kPhyStart + WINDOW, i);
  }

  lemma SlotSum(va: Word, i: nat)
    requires va + MB * i < WORD_LIMIT
    ensures Slot(va + MB * i) == Slot(va) + i
  {
  }

  /** Only then do the sections go to consecutive slots: past the end of the window `phy_to_kvm`
      wraps around, and the loop writes over the first slots of the virtual window. */
  lemma SectionsStayInWindow(kPhyStart: Word, kSz: Word)
    requires KP_START <= kPhyStart < KP_START + WINDOW && kPhyStart + MB * (kSz / MB) < WORD_LIMIT
    ensures ImageFits(kPhyStart, kSz) <==>
            forall i :: 0 <= i <= kSz / MB ==> Slot(PhyToKvm(kPhyStart + MB * i)) == FirstKernSlot(kPhyStart) + i
  {
    if ImageFits(kPhyStart, kSz) {
      forall i | 0 <= i <= kSz / MB ensures Slot(PhyToKvm(kPhyStart + MB * i)) == FirstKernSlot(kPhyStart) + i {
        KernSlots(kPhyStart, i);
      }
    } else {
      var n := kSz / MB;
      KernVirtual(kPhyStart);
      SlotSum(kPhyStart, n);
      SlotPastWindow(kPhyStart, n);
    }
  }

  lemma SlotPastWindow(kPhyStart: Word, n: nat)
    requires kPhyStart < KP_START + WINDOW <= kPhyStart + MB * n < WORD_LIMIT
    ensures Slot(kPhyStart + WINDOW) + n >= 2560 > Slot(PhyToKvm(kPhyStart + MB * n))
  {
    PhyToKvmMeaning(kPhyStart + MB * n);
    SlotAtLeast(kPhyStart, n);
    SlotBelow((kPhyStart + MB * n) % WINDOW);
  }

  lemma SlotAtLeast(p: Word, n: nat)
    requires KP_START + WINDOW <= p + MB * n < WORD_LIMIT && p + WINDOW < WORD_LIMIT
    ensures Slot(p + WINDOW) + n >= 2560
  {
  }

  lemma SlotBelow(offset: nat)
    requires offset < WINDOW
    ensures Slot(KV_START + offset) < 2560
  {
  }

  /** One iteration of `init_kern_pg_dir`. */
  method MapImageSection(mmu: Mmu, pgDir: Word, kPhyStart: Word, i: nat, ghost m0: Mem)
    requires mmu.Shape() && pgDir % DIRECTORY == 0
    requires KP_START <= kPhyStart && kPhyStart + MB * i < KP_START + WINDOW
    requires FirstKernSlot(kPhyStart) + i < SLOTS && Sections(mmu.Memory(), pgDir, FirstKernSlot(kPhyStart), i, kPhyStart)
    requires OnlyChanged(m0, mmu.Memory(), pgDir + 4 * KERN_PGD_ENTRY_CNT, pgDir + DIRECTORY)
    modifies mmu.mem
    ensures Sections(mmu.Memory(), pgDir, FirstKernSlot(kPhyStart), i + 1, kPhyStart)
    ensures OnlyChanged(m0, mmu.Memory(), pgDir + 4 * KERN_PGD_ENTRY_CNT, pgDir + DIRECTORY)
  {
    var pAddr := kPhyStart + MB * i;
    ghost var first := FirstKernSlot(kPhyStart);
    KernSlots(kPhyStart, i);
    SectionsStep(mmu.Memory(), pgDir, first, i, kPhyStart);
    WriteChanges(m0, mmu.Memory(), pgDir + 4 * KERN_PGD_ENTRY_CNT, pgDir + DIRECTORY,
                 DirAddr(pgDir, first + i), SectionWord(pAddr));
    InitPgDirEntry(mmu, pgDir, pAddr, PhyToKvm(pAddr));
  }

  /** `init_kern_pg_dir` */
  method InitKernPgDir(mmu: Mmu, pgDir: Word, kPhyStart: Word, kSz: Word)
    requires mmu.Shape() && pgDir % DIRECTORY == 0
    requires ImageFits(kPhyStart, kSz)
    modifies mmu.mem, mmu`ttbr1
    ensures mmu.ttbr1 == pgDir
    ensures FirstKernSlot(kPhyStart) + kSz / MB + 1 <= SLOTS
    ensures Sections(mmu.Memory(), pgDir, FirstKernSlot(kPhyStart), kSz / MB + 1, kPhyStart)
    ensures OnlyChanged(old(mmu.Memory()), mmu.Memory(), pgDir + 4 * KERN_PGD_ENTRY_CNT, pgDir + DIRECTORY)
  {
    ShrIsDiv(kSz, 20);
    PowersOfTwo();
    var cnt := Shr(kSz, 20) + 1;
    ghost var first := FirstKernSlot(kPhyStart);
    KernSlots(kPhyStart, kSz / MB);
    for i := 0 to cnt
      invariant Sections(mmu.Memory(), pgDir, first, i, kPhyStart)
      invariant OnlyChanged(old(mmu.Memory()), mmu.Memory(), pgDir + 4 * KERN_PGD_ENTRY_CNT, pgDir + DIRECTORY)
    {
      MapImageSection(mmu, pgDir, kPhyStart, i, old(mmu.Memory()));
    }
    mmu.ttbr1 := pgDir;
  }

  // ----- the mapping that boot sets up

  ghost predicate BootDirectory(m: Mem, dir: Word, kPhyStart: Word, kSz: Word)
    requires dir % DIRECTORY == 0
    requires ImageFits(kPhyStart, kSz)
  {
    KernSlots(kPhyStart, kSz / MB);
    && Sections(m, dir, 0, KERN_PGD_ENTRY_CNT, 0)
    && Sections(m, dir, FirstKernSlot(kPhyStart), kSz / MB + 1, kPhyStart)
  }

  /** One directory, 2G/2G split. */
  function BootRegs(dir: Word): Regs {
    Regs(dir, dir, 1)
  }

  lemma SharedDirectory(dir: Word, slot: nat)
    requires dir % DIRECTORY == 0 && slot < SLOTS
    ensures SlotAddr(BootRegs(dir), slot) == DirAddr(dir, slot)
    ensures KernDir(BootRegs(dir)) == UserDir(BootRegs(dir)) == dir
  {
    LowSlotsTable(1);
    MultipleOfPart(dir, DIRECTORY, 0x2000, 2);
  }

  lemma SectionWalk(m: Mem, dir: Word, va: Word, phy: Word)
    requires dir % DIRECTORY == 0 && Read(m, DirAddr(dir, Slot(va))) == SectionWord(phy)
    ensures Walk(BootRegs(dir), m, va) == Some(AlignDown(phy, SECTION) + va % SECTION)
  {
    SharedDirectory(dir, Slot(va));
    SectionWordMaps(phy);
  }

  /** Every address of the low 2 GiB translates to itself. */
  lemma BootLowIdentity(m: Mem, dir: Word, kPhyStart: Word, kSz: Word, va: Word)
    requires dir % DIRECTORY == 0
    requires ImageFits(kPhyStart, kSz)
    requires BootDirectory(m, dir, kPhyStart, kSz)
    requires va < 0x8000_0000
    ensures Walk(BootRegs(dir), m, va) == Some(va)
  {
    var slot := Slot(va);
    assert Read(m, DirAddr(dir, 0 + slot)) == SectionWord(0 + MB * slot);
    SlotSum(0, slot);
    SectionByte(m, dir, va, MB * slot, va);
  }

  /** The section that serves byte `p` of the kernel image, counted from the first. */
  function SectionOf(kPhyStart: Word, p: Word): int {
    Slot(p) - Slot(kPhyStart)
  }

  /** A byte whose section was written translates from its kernel virtual address to itself. */
  lemma BootKernelWindow(m: Mem, dir: Word, kPhyStart: Word, kSz: Word, p: Word)
    requires dir % DIRECTORY == 0
    requires ImageFits(kPhyStart, kSz)
    requires BootDirectory(m, dir, kPhyStart, kSz)
    requires 0 <= SectionOf(kPhyStart, p) <= kSz / MB
    ensures Walk(BootRegs(dir), m, PhyToKvm(p)) == Some(p)
  {
    hide Walk, PhyToKvm, DirAddr, Read, SectionWord, BootDirectory;
    var i := SectionOf(kPhyStart, p);
    ImageSection(m, dir, kPhyStart, kSz, i);
    ImageByte(kPhyStart, kSz, p);
    SectionByte(m, dir, PhyToKvm(p), kPhyStart + MB * i, p);
  }

  /** The slot of a byte, virtually and physically, counted in sections of the image. */
  lemma ImageByte(kPhyStart: Word, kSz: Word, p: Word)
    requires ImageFits(kPhyStart, kSz) && 0 <= SectionOf(kPhyStart, p) <= kSz / MB
    ensures var i := SectionOf(kPhyStart, p);
            && kPhyStart + MB * i < WORD_LIMIT && Slot(kPhyStart + MB * i) == Slot(p)
            && Slot(PhyToKvm(p)) == FirstKernSlot(kPhyStart) + i && PhyToKvm(p) % MB == p % MB
  {
    SectionInWindow(kPhyStart, kSz, p);
    WindowOffset(kPhyStart, p);
    SlotSum(kPhyStart, SectionOf(kPhyStart, p));
  }

  lemma SectionInWindow(kPhyStart: Word, kSz: Word, p: Word)
    requires ImageFits(kPhyStart, kSz) && 0 <= SectionOf(kPhyStart, p) <= kSz / MB
    ensures KP_START <= p < KP_START + WINDOW
  {
  }

  lemma ImageSection(m: Mem, dir: Word, kPhyStart: Word, kSz: Word, i: nat)
    requires dir % DIRECTORY == 0
    requires ImageFits(kPhyStart, kSz)
    requires BootDirectory(m, dir, kPhyStart, kSz) && i <= kSz / MB
    ensures kPhyStart + MB * i < WORD_LIMIT && FirstKernSlot(kPhyStart) + i < SLOTS
    ensures Read(m, DirAddr(dir, FirstKernSlot(kPhyStart) + i)) == SectionWord(kPhyStart + MB * i)
  {
    KernSlots(kPhyStart, kSz / MB);
  }

  /** A section entry for the megabyte of `p` maps an address with the same offset to `p`. */
  lemma SectionByte(m: Mem, dir: Word, va: Word, phy: Word, p: Word)
    requires dir % DIRECTORY == 0 && Read(m, DirAddr(dir, Slot(va))) == SectionWord(phy)
    requires Slot(phy) == Slot(p) && va % MB == p % MB
    ensures Walk(BootRegs(dir), m, va) == Some(p)
  {
    SectionWalk(m, dir, va, phy);
    SameSlotBase(p, phy);
  }

  lemma WindowOffset(kPhyStart: Word, p: Word)
    requires KP_START <= kPhyStart < KP_START + WINDOW && KP_START <= p < KP_START + WINDOW
    ensures Slot(PhyToKvm(p)) == FirstKernSlot(kPhyStart) + SectionOf(kPhyStart, p)
    ensures PhyToKvm(p) % MB == p % MB
  {
    KernVirtual(p);
    KernVirtual(kPhyStart);
    WindowSlot(p);
    WindowSlot(kPhyStart);
  }

  lemma WindowSlot(p: Word)
    requires p + WINDOW < WORD_LIMIT
    ensures Slot(p + WINDOW) == Slot(p) + 512 && (p + WINDOW) % MB == p % MB
  {
  }

  lemma SameSlotBase(p: Word, q: Word)
    requires Slot(p) == Slot(q)
    ensures AlignDown(q, SECTION) + p % SECTION == p
  {
  }

  /** The number of sections the boot code maps covers the whole image exactly when the image's
      offset into its first section and the remainder of its size fit one section together. */
  lemma SectionsCoverImage(kPhyStart: Word, kSz: Word)
    requires kSz > 0 && kPhyStart + kSz <= WORD_LIMIT
    ensures kPhyStart % MB + kSz % MB <= MB <==>
            forall p: Word :: kPhyStart <= p < kPhyStart + kSz ==> SectionOf(kPhyStart, p) <= kSz / MB
  {
    forall p: Word | kPhyStart <= p < kPhyStart + kSz && kPhyStart % MB + kSz % MB <= MB
      ensures SectionOf(kPhyStart, p) <= kSz / MB
    {
    }
    var last: Word := kPhyStart + kSz - 1;
    assert kPhyStart % MB + kSz % MB > MB ==> SectionOf(kPhyStart, last) > kSz / MB;
  }

  const SCTLR_AFE := 0x2000_0000
  const SCTLR_MMU_ENB := 0x1

  /** The MMU part of `vexpress_boot_init`. */
  method BootInit(mmu: Mmu, kPgd: Word, kPhyStart: Word, kSz: Word)
    requires mmu.Shape() && kPgd % DIRECTORY == 0
    requires ImageFits(kPhyStart, kSz)
    modifies mmu, mmu.mem
    ensures mmu.Enabled() && mmu.Registers() == BootRegs(kPgd)
    ensures mmu.ttbcr == 1 && mmu.sctlr == Or(old(mmu.sctlr), 0x2000_0001)
    ensures BootDirectory(mmu.Memory(), kPgd, kPhyStart, kSz)
    ensures OnlyChanged(old(mmu.Memory()), mmu.Memory(), kPgd, kPgd + DIRECTORY)
    ensures forall va: Word :: va < 0x8000_0000 ==> Walk(BootRegs(kPgd), mmu.Memory(), va) == Some(va)
    ensures kPhyStart % MB + kSz % MB <= MB ==>
              forall p: Word :: kPhyStart <= p < kPhyStart + kSz ==>
                                  Walk(BootRegs(kPgd), mmu.Memory(), PhyToKvm(p)) == Some(p)
  {
    InitUserPgDir(mmu, kPgd);
    ghost var low := mmu.Memory();
    InitKernPgDir(mmu, kPgd, kPhyStart, kSz);
    KeepLowSections(low, mmu.Memory(), kPgd);
    mmu.ttbcr := 1;
    mmu.sctlr := OrWord(mmu.sctlr, SCTLR_AFE + SCTLR_MMU_ENB);
    EnableBit(old(mmu.sctlr));
    BootTranslates(mmu.Memory(), kPgd, kPhyStart, kSz);
  }

  lemma EnableBit(sctlr: Word)
    ensures And(OrWord(sctlr, SCTLR_AFE + SCTLR_MMU_ENB), 1) != 0
    ensures And(1, 7) == 1
  {
    assert Pow2(1) == 2;
    AndLowMask(OrWord(sctlr, SCTLR_AFE + SCTLR_MMU_ENB), 1);
    OrHalves(sctlr, SCTLR_AFE + SCTLR_MMU_ENB);
  }

  lemma KeepLowSections(m: Mem, m': Mem, dir: Word)
    requires dir % DIRECTORY == 0 && Sections(m, dir, 0, KERN_PGD_ENTRY_CNT, 0)
    requires OnlyChanged(m, m', dir + 4 * KERN_PGD_ENTRY_CNT, dir + DIRECTORY)
    ensures Sections(m', dir, 0, KERN_PGD_ENTRY_CNT, 0)
  {
    forall i | 0 <= i < KERN_PGD_ENTRY_CNT
      ensures 0 + MB * i < WORD_LIMIT && Read(m', DirAddr(dir, 0 + i)) == SectionWord(0 + MB * i)
    {
      assert Read(m, DirAddr(dir, 0 + i)) == SectionWord(0 + MB * i);
    }
  }

  lemma BootTranslates(m: Mem, dir: Word, kPhyStart: Word, kSz: Word)
    requires dir % DIRECTORY == 0
    requires ImageFits(kPhyStart, kSz)
    requires BootDirectory(m, dir, kPhyStart, kSz)
    ensures forall va: Word :: va < 0x8000_0000 ==> Walk(BootRegs(dir), m, va) == Some(va)
    ensures kPhyStart % MB + kSz % MB <= MB ==>
              forall p: Word :: kPhyStart <= p < kPhyStart + kSz ==> Walk(BootRegs(dir), m, PhyToKvm(p)) == Some(p)
  {
    forall va: Word | va < 0x8000_0000 ensures Walk(BootRegs(dir), m, va) == Some(va) {
      BootLowIdentity(m, dir, kPhyStart, kSz, va);
    }
    if kPhyStart % MB + kSz % MB <= MB {
      forall p: Word | kPhyStart <= p < kPhyStart + kSz ensures Walk(BootRegs(dir), m, PhyToKvm(p)) == Some(p) {
        SectionsCoverImage(kPhyStart, kSz);
        BootKernelWindow(m, dir, kPhyStart, kSz, p);
      }
    }
  }
}
