/** The whole change from boot sections to page tables (source/mach/vexpress_a9/init/vexpress_init.c):
    clear the table region, map the kernel's regions into it, install it. What this leaves mapped,
    what it leaves alone, and exactly when it maps nothing else.
 */
module KernSwitch {
  import opened Bits
  import opened Types
  import opened MmuWalk
  import opened Armv7Mmu
  import opened MemLayout
  import opened Boot
  import opened KernPages
  import opened KernTables

  // ----- what stays as it is

  /** Only words of two ranges differ. */
  ghost predicate ChangedInTwo(m: Mem, m': Mem, lo: int, hi: int, lo2: int, hi2: int) {
    forall a :: WordAddr(a) && !(lo <= a < hi) && !(lo2 <= a < hi2) ==> Read(m', a) == Read(m, a)
  }

  /** Only the table region and the directory entries of the high half differ. */
  ghost predicate SwitchFrame(r: Regs, m: Mem, m': Mem, region: Word) {
    ChangedInTwo(m, m', region, region + MMU_PGTB_SIZE, KernDir(r) + 4 * 2048, KernDir(r) + DIRECTORY)
  }

  /** The table region lies outside the directory entries in use. */
  predicate RegionClear(r: Regs, region: Word)
    requires ValidRegs(r)
  {
    && (UserDir(r) + 4 * 2048 <= region || region + MMU_PGTB_SIZE <= UserDir(r))
    && (KernDir(r) + DIRECTORY <= region || region + MMU_PGTB_SIZE <= KernDir(r) + 4 * 2048)
  }

  /** A table that neither the region nor the high directory entries overlap. */
  predicate TableClear(r: Regs, region: Word, t: Word) {
    && (t + TABLE <= region || region + MMU_PGTB_SIZE <= t)
    && (t + TABLE <= KernDir(r) + 4 * 2048 || KernDir(r) + DIRECTORY <= t)
  }

  /** So are all the tables of the low half. */
  ghost predicate LowTablesClear(r: Regs, m: Mem, region: Word)
    requires r.n == 1
  {
    forall s :: 0 <= s < 2048 && Descriptor(r, m, s).L1Table? ==> TableClear(r, region, Descriptor(r, m, s).base)
  }

  ghost predicate NoLowTables(r: Regs, m: Mem)
    requires r.n == 1
  {
    forall s :: 0 <= s < 2048 ==> !Descriptor(r, m, s).L1Table?
  }

  lemma LowDescriptorKept(r: Regs, m: Mem, m': Mem, region: Word, s: nat)
    requires r.n == 1 && DirsApart(r) && RegionClear(r, region) && s < 2048
    requires SwitchFrame(r, m, m', region)
    ensures Descriptor(r, m', s) == Descriptor(r, m, s)
  {
    LowSlotsTable(1);
    DirGap(r);
    assert Read(m', SlotAddr(r, s)) == Read(m, SlotAddr(r, s));
  }

  /** The low half survives, sections and tables alike. */
  lemma LowHalfKept(r: Regs, m: Mem, m': Mem, region: Word, va: Word)
    requires r.n == 1 && DirsApart(r) && RegionClear(r, region) && va < HIGH_HALF
    requires LowTablesClear(r, m, region) && SwitchFrame(r, m, m', region)
    ensures Walk(r, m', va) == Walk(r, m, va)
  {
    var d := Descriptor(r, m, Slot(va));
    LowDescriptorKept(r, m, m', region, Slot(va));
    if d.L1Table? {
      assert TableClear(r, region, d.base);
      assert Read(m', EntryAddr(d.base, PageIndex(va))) == Read(m, EntryAddr(d.base, PageIndex(va)));
    }
  }

  // ----- separation

  /** A table of the region holds no directory entry. */
  lemma RegionTableClear(r: Regs, region: Word, i: nat)
    requires r.n == 1 && TableRegion(region) && region % TABLE == 0 && i < 2048 && RegionClear(r, region)
    ensures ClearOfDirs(r, TableOf(region, i))
  {
    LowSlotsTable(1);
    TableJoins(region, i);
  }

  lemma InstalledTable(r: Regs, m: Mem, region: Word, s: nat)
    requires r.n == 1 && TableRegion(region) && region % TABLE == 0
    requires TablesInstalled(r, m, region, 2048) && NoLowTables(r, m)
    requires s < SLOTS && Descriptor(r, m, s).L1Table?
    ensures s >= 2048 && Descriptor(r, m, s) == L1Table(TableOf(region, s - 2048))
  {
    assert s >= 2048;
    assert Descriptor(r, m, 2048 + (s - 2048)) == L1Table(TableOf(region, s - 2048));
  }

  /** The installed tables are separated, as the later mapping calls need them, exactly when the
      region is aligned to its own size. */
  lemma SeparatedExactly(r: Regs, m: Mem, region: Word)
    requires r.n == 1 && TableRegion(region) && region % TABLE == 0 && RegionClear(r, region) && DirsApart(r)
    requires TablesInstalled(r, m, region, 2048) && NoLowTables(r, m)
    ensures Separated(r, m) <==> region % MMU_PGTB_SIZE == 0
  {
    TablesDistinct(region);
    if region % MMU_PGTB_SIZE == 0 {
      forall s | 0 <= s < SLOTS && Descriptor(r, m, s).L1Table?
        ensures s >= 2048 && Descriptor(r, m, s) == L1Table(TableOf(region, s - 2048))
        ensures ClearOfDirs(r, Descriptor(r, m, s).base)
      {
        InstalledTable(r, m, region, s);
        RegionTableClear(r, region, s - 2048);
      }
    } else {
      TableJoins(region, 0);
      TableJoins(region, 1024);
      assert Descriptor(r, m, 2048 + 0) == Descriptor(r, m, 2048 + 1024);
    }
  }

  // ----- the whole switch

  /** `memset(mmu_pgtb_reg.base, 0, mmu_pgtb_reg.size)` */
  method ClearRegion(mmu: Mmu, region: Word)
    requires mmu.Shape() && TableRegion(region)
    modifies mmu.mem
    ensures Tables(mmu.Memory(), region, map[])
    ensures forall j :: 0 <= j < HIGH_PAGES ==> Read(mmu.Memory(), TableWordAddr(region, j)) == 0
    ensures OnlyChanged(old(mmu.Memory()), mmu.Memory(), region, region + MMU_PGTB_SIZE)
  {
    for i := 0 to HIGH_PAGES
      invariant forall j :: 0 <= j < i ==> Read(mmu.Memory(), TableWordAddr(region, j)) == 0
      invariant OnlyChanged(old(mmu.Memory()), mmu.Memory(), region, region + MMU_PGTB_SIZE)
    {
      ghost var m := mmu.Memory();
      WriteChanges(old(mmu.Memory()), m, region, region + MMU_PGTB_SIZE, TableWordAddr(region, i), 0);
      mmu.Store(TableWordAddr(region, i), 0);
      forall j | 0 <= j < i + 1 ensures Read(mmu.Memory(), TableWordAddr(region, j)) == 0 {
        ReadWrite(m, TableWordAddr(region, i), 0, TableWordAddr(region, j));
      }
    }
    forall j | 0 <= j < HIGH_PAGES ensures TableEntry(mmu.Memory(), region, map[], j) {
      assert Read(mmu.Memory(), TableWordAddr(region, j)) == 0;
    }
  }

  /** The map calls of `vexpress_init`, for any list of regions. */
  method MapRegions(mmu: Mmu, pgtbReg: MmReg, regs: seq<MmReg>, ent: InitMmuEntry)
    requires mmu.Shape() && mmu.PgDiv() == 1 && PlainAttributes(ent) && AllInWindow(regs)
    requires TableRegion(pgtbReg.base) && Tables(mmu.Memory(), pgtbReg.base, map[])
    modifies mmu.mem
    ensures Tables(mmu.Memory(), pgtbReg.base, MapOfAll(regs))
    ensures PageWords(mmu.Memory(), pgtbReg.base, MapOfAll(regs), ent)
    ensures OthersKept(old(mmu.Memory()), mmu.Memory(), pgtbReg.base, MapOfAll(regs))
    ensures OnlyChanged(old(mmu.Memory()), mmu.Memory(), pgtbReg.base, pgtbReg.base + MMU_PGTB_SIZE)
  {
    for k := 0 to |regs|
      invariant Tables(mmu.Memory(), pgtbReg.base, MapOfAll(regs[..k]))
      invariant PageWords(mmu.Memory(), pgtbReg.base, MapOfAll(regs[..k]), ent)
      invariant OthersKept(old(mmu.Memory()), mmu.Memory(), pgtbReg.base, MapOfAll(regs[..k]))
      invariant OnlyChanged(old(mmu.Memory()), mmu.Memory(), pgtbReg.base, pgtbReg.base + MMU_PGTB_SIZE)
    {
      assert regs[k] in regs;
      ghost var m := mmu.Memory();
      var err := InitMapKernPgtb(mmu, Some(pgtbReg), Some(regs[k]), Some(ent), MapOfAll(regs[..k]));
      PageWordsJoin(old(mmu.Memory()), m, mmu.Memory(), pgtbReg.base, MapOfAll(regs[..k]), RegionMap(regs[k]), ent);
      assert regs[..k + 1][..k] == regs[..k];
    }
    assert regs[..|regs|] == regs;
  }

  /** Of the bytes of the physical window, those of the kept pages and no others are found at their
      kernel virtual addresses, which are 512 MiB higher (`KernVirtual`). */
  ghost predicate WindowServed(r: Regs, m: Mem, regs: seq<MmReg>)
    requires r.n == 1 && AllInWindow(regs)
  {
    forall p: Word :: KP_START <= p < KP_START + WINDOW ==>
                        (Walk(r, m, p + WINDOW) == Some(p) <==> Kept(regs, PageOf(p)))
  }

  /** The words of the tables: each mapped page with the permission and flags of `ent`, 0 for any
      other, and each slot of the high half with its table and the domain and flags of `ent`. */
  ghost predicate Attributed(r: Regs, m: Mem, region: Word, pm: map<nat, nat>, ent: InitMmuEntry)
    requires r.n == 1 && TableRegion(region) && region % TABLE == 0
  {
    && PageWords(m, region, pm, ent)
    && (forall j :: 0 <= j < HIGH_PAGES && j !in pm ==> Read(m, TableWordAddr(region, j)) == 0)
    && DirWords(r, m, region, 2048, ent)
  }

  /** What the running kernel finds in the high half. */
  ghost predicate HighHalf(r: Regs, m: Mem, region: Word, pm: map<nat, nat>)
    requires r.n == 1
  {
    && (forall va: Word :: va >= HIGH_HALF ==> Walk(r, m, va) == Mapped(pm, ServingWord(region, va), va))
    && (pm != map[] ==> (HighHalfMaps(r, m, pm) <==> region % MMU_PGTB_SIZE == 0))
  }

  /** Clears the region, maps the kernel regions into it and installs it. Afterwards the low half
      translates as before, and every address of the high half as the word of the region that
      serves it says: exactly the bytes of the kept pages are found at their virtual addresses. The
      high half maps nothing else, and the tables are separated, exactly when the region is aligned
      to its own size. */
  method SwitchToTables(mmu: Mmu, pgdReg: MmReg, pgtbReg: MmReg, regs: seq<MmReg>, ent: InitMmuEntry)
    requires mmu.Shape() && mmu.PgDiv() == 1 && mmu.Enabled() && PlainAttributes(ent) && AllInWindow(regs)
    requires TableRegion(pgtbReg.base) && RegionClear(mmu.Registers(), pgtbReg.base)
    requires DirsApart(mmu.Registers()) && LowTablesClear(mmu.Registers(), mmu.Memory(), pgtbReg.base)
    modifies mmu.mem
    ensures forall va: Word :: va < HIGH_HALF ==>
                                 Walk(mmu.Registers(), mmu.Memory(), va) == Walk(mmu.Registers(), old(mmu.Memory()), va)
    ensures HighHalf(mmu.Registers(), mmu.Memory(), pgtbReg.base, MapOfAll(regs))
    ensures WindowServed(mmu.Registers(), mmu.Memory(), regs)
    ensures pgtbReg.base % TABLE == 0
    ensures Attributed(mmu.Registers(), mmu.Memory(), pgtbReg.base, MapOfAll(regs), ent)
    ensures NoLowTables(mmu.Registers(), old(mmu.Memory())) ==>
              (Separated(mmu.Registers(), mmu.Memory()) <==> pgtbReg.base % MMU_PGTB_SIZE == 0)
  {
    ghost var r, m0 := mmu.Registers(), mmu.Memory();
    TableJoins(pgtbReg.base, 0);
    ClearRegion(mmu, pgtbReg.base);
    ghost var mc := mmu.Memory();
    MapRegions(mmu, pgtbReg, regs, ent);
    ghost var m1 := mmu.Memory();
    var err := InitSetupKernPgtb(mmu, Some(pgdReg), Some(pgtbReg), ent);
    TablesKept(r, m1, mmu.Memory(), pgtbReg.base, MapOfAll(regs));
    WordsKept(r, mc, m1, mmu.Memory(), pgtbReg.base, MapOfAll(regs), ent);
    Switched(r, m0, mmu.Memory(), pgtbReg.base, regs);
  }

  lemma TablesKept(r: Regs, m: Mem, m': Mem, region: Word, pm: map<nat, nat>)
    requires r.n == 1 && TableRegion(region) && RegionClear(r, region) && Tables(m, region, pm)
    requires OnlyChanged(m, m', KernDir(r) + 4 * 2048, KernDir(r) + DIRECTORY)
    ensures Tables(m', region, pm)
  {
    forall j | 0 <= j < HIGH_PAGES ensures TableEntry(m', region, pm, j) {
      assert TableEntry(m, region, pm, j);
    }
  }

  /** Installing the tables leaves the words of the region as the mapping calls left them. */
  lemma WordsKept(r: Regs, m0: Mem, m: Mem, m': Mem, region: Word, pm: map<nat, nat>, ent: InitMmuEntry)
    requires r.n == 1 && TableRegion(region) && region % TABLE == 0 && RegionClear(r, region)
    requires forall j :: 0 <= j < HIGH_PAGES ==> Read(m0, TableWordAddr(region, j)) == 0
    requires PageWords(m, region, pm, ent) && OthersKept(m0, m, region, pm)
    requires OnlyChanged(m, m', KernDir(r) + 4 * 2048, KernDir(r) + DIRECTORY) && DirWords(r, m', region, 2048, ent)
    ensures Attributed(r, m', region, pm, ent)
  {
    hide PageReads, DirWords;
    forall j | 0 <= j < HIGH_PAGES
      ensures Read(m', TableWordAddr(region, j)) == Read(m, TableWordAddr(region, j))
    {
    }
  }

  lemma Switched(r: Regs, m0: Mem, m2: Mem, region: Word, regs: seq<MmReg>)
    requires r.n == 1 && TableRegion(region) && region % TABLE == 0 && RegionClear(r, region) && DirsApart(r)
    requires AllInWindow(regs) && LowTablesClear(r, m0, region)
    requires SwitchFrame(r, m0, m2, region)
    requires TablesInstalled(r, m2, region, 2048) && Tables(m2, region, MapOfAll(regs))
    ensures forall va: Word :: va < HIGH_HALF ==> Walk(r, m2, va) == Walk(r, m0, va)
    ensures HighHalf(r, m2, region, MapOfAll(regs))
    ensures WindowServed(r, m2, regs)
    ensures NoLowTables(r, m0) ==> (Separated(r, m2) <==> region % MMU_PGTB_SIZE == 0)
  {
    hide Walk, HighHalf, MapOfAll, Tables, TablesInstalled, Kept;
    forall va: Word | va < HIGH_HALF ensures Walk(r, m2, va) == Walk(r, m0, va) {
      LowHalfKept(r, m0, m2, region, va);
    }
    SwitchedHigh(r, m2, region, MapOfAll(regs));
    forall p: Word | KP_START <= p < KP_START + WINDOW
      ensures Walk(r, m2, p + WINDOW) == Some(p) <==> Kept(regs, PageOf(p))
    {
      RegionsOwnExactly(regs, PageOf(p));
      KernelWindowTranslates(r, m2, region, MapOfAll(regs), p);
    }
    if NoLowTables(r, m0) {
      forall s | 0 <= s < 2048 ensures !Descriptor(r, m2, s).L1Table? {
        LowDescriptorKept(r, m0, m2, region, s);
      }
      SeparatedExactly(r, m2, region);
    }
  }

  lemma SwitchedHigh(r: Regs, m: Mem, region: Word, pm: map<nat, nat>)
    requires r.n == 1 && TableRegion(region) && region % TABLE == 0
    requires TablesInstalled(r, m, region, 2048) && Tables(m, region, pm)
    ensures HighHalf(r, m, region, pm)
  {
    forall va: Word | va >= HIGH_HALF ensures Walk(r, m, va) == Mapped(pm, ServingWord(region, va), va) {
      HighHalfTranslates(r, m, region, pm, va);
    }
    if pm != map[] {
      HighHalfExactly(r, m, region, pm);
    }
  }

  /** Boot followed by the switch: the low half stays one to one, and of the bytes in the sections
      that boot wrote exactly those of the kept pages translate the same before and after. */
  method BootThenSwitch(mmu: Mmu, kPgd: Word, kPhyStart: Word, kSz: Word, pgdReg: MmReg, pgtbReg: MmReg,
                        regs: seq<MmReg>, ent: InitMmuEntry)
    returns (ghost booted: Mem)
    requires mmu.Shape() && kPgd % DIRECTORY == 0 && PlainAttributes(ent) && AllInWindow(regs)
    requires ImageFits(kPhyStart, kSz) && TableRegion(pgtbReg.base)
    requires kPgd + DIRECTORY <= pgtbReg.base || pgtbReg.base + MMU_PGTB_SIZE <= kPgd
    modifies mmu, mmu.mem
    ensures mmu.Enabled() && mmu.Registers() == BootRegs(kPgd)
    ensures forall va: Word :: va < HIGH_HALF ==> Walk(BootRegs(kPgd), mmu.Memory(), va) == Some(va)
    ensures HighHalf(BootRegs(kPgd), mmu.Memory(), pgtbReg.base, MapOfAll(regs))
    ensures WindowServed(BootRegs(kPgd), mmu.Memory(), regs)
    ensures pgtbReg.base % TABLE == 0
    ensures Attributed(BootRegs(kPgd), mmu.Memory(), pgtbReg.base, MapOfAll(regs), ent)
    ensures forall p: Word :: 0 <= SectionOf(kPhyStart, p) <= kSz / MB ==>
                                Walk(BootRegs(kPgd), booted, PhyToKvm(p)) == Some(p)
    ensures Separated(BootRegs(kPgd), mmu.Memory()) <==> pgtbReg.base % MMU_PGTB_SIZE == 0
  {
    BootInit(mmu, kPgd, kPhyStart, kSz);
    booted := mmu.Memory();
    BootLowSections(booted, kPgd, kPhyStart, kSz);
    SharedDirectory(kPgd, 0);
    forall p: Word | 0 <= SectionOf(kPhyStart, p) <= kSz / MB
      ensures Walk(BootRegs(kPgd), booted, PhyToKvm(p)) == Some(p)
    {
      BootKernelWindow(booted, kPgd, kPhyStart, kSz, p);
    }
    SwitchToTables(mmu, pgdReg, pgtbReg, regs, ent);
  }

  lemma BootLowSections(m: Mem, dir: Word, kPhyStart: Word, kSz: Word)
    requires dir % DIRECTORY == 0
    requires ImageFits(kPhyStart, kSz)
    requires BootDirectory(m, dir, kPhyStart, kSz)
    ensures NoLowTables(BootRegs(dir), m)
  {
    forall s | 0 <= s < 2048 ensures !Descriptor(BootRegs(dir), m, s).L1Table? {
      SharedDirectory(dir, s);
      assert Read(m, DirAddr(dir, 0 + s)) == SectionWord(0 + MB * s);
      SectionWordMaps(MB * s);
    }
  }
}
