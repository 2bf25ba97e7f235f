/** Replacing the boot sections of the kernel half by page tables
    (source/mach/vexpress_a9/init/vexpress_init.c), for the 2G/2G split that the boot code sets:
    the two loops that fill and install the tables, and the translation they lead to.

    The table region is 2 MiB in one piece. vexpress_init.c:105 bases it at a multiple of 1 MiB;
    at an odd one, the `|` that picks a table repeats the first 1024 tables.
 */
module KernTables {
  import opened Bits
  import opened Types
  import opened MmuWalk
  import opened Descriptors
  import opened DescriptorFields
  import opened Armv7Mmu
  import opened MmuSplit
  import opened MemLayout
  import opened Boot
  import opened KernPages

  datatype InitMmuEntry = InitMmuEntry(perms: AccPerm, domain: Byte, flags: Word)

  const MMU_PGTB_SIZE := 0x20_0000
  const HIGH_HALF := 0x8000_0000
  const HIGH_PAGES := 0x8_0000

  /** Attributes that stay out of the type and base fields of every descriptor. */
  predicate PlainAttributes(ent: InitMmuEntry) {
    ent.flags < TABLE && ent.flags % 4 == 0 && ent.domain < 16
  }

  // ----- the table region

  /** Where the caller may put the region. */
  predicate TableRegion(region: Word) {
    region % MB == 0 && region + MMU_PGTB_SIZE <= WORD_LIMIT
  }

  function TableWordAddr(region: Word, j: nat): (a: int)
    requires TableRegion(region) && j < HIGH_PAGES
    ensures WordAddr(a) && a == region + 4 * j && region <= a < region + MMU_PGTB_SIZE
  {
    MultipleOfPart(region, MB, 4, 0x4_0000);
    WordAddrSum(region, j);
    region + 4 * j
  }

  /** Word j of the region maps to the page frame `pm[j]`, or nowhere. */
  ghost predicate Tables(m: Mem, region: Word, pm: map<nat, nat>)
    requires TableRegion(region)
  {
    && (forall j :: j in pm ==> j < 2 * WINDOW_PAGES && pm[j] < WINDOW_PAGES)
    && (forall j :: 0 <= j < HIGH_PAGES ==> TableEntry(m, region, pm, j))
  }

  ghost predicate TableEntry(m: Mem, region: Word, pm: map<nat, nat>, j: nat)
    requires TableRegion(region) && j < HIGH_PAGES
  {
    DecodeL2(Read(m, TableWordAddr(region, j))) ==
    if j in pm && pm[j] < WINDOW_PAGES then L2Small(KP_START + PAGE * pm[j]) else L2Fault
  }

  /** The word of a page that is mapped to frame `f` of the window: the frame, the permission and the
      flags of `ent`, and the type of a small page. The permission reads back if the flags leave
      its bits alone. */
  predicate PageReads(w: Word, f: nat, ent: InitMmuEntry) {
    && w == KP_START + PAGE * f + Or(16 * ent.perms, ent.flags) + 2
    && (ClearOfAp(ent.flags) ==> PageAp(w) == ent.perms && w == KP_START + PAGE * f + 16 * ent.perms + ent.flags + 2)
  }

  /** The mapped words of the region have the attributes of `ent`. */
  ghost predicate PageWords(m: Mem, region: Word, pm: map<nat, nat>, ent: InitMmuEntry)
    requires TableRegion(region)
  {
    forall j :: j in pm ==> j < HIGH_PAGES && PageReads(Read(m, TableWordAddr(region, j)), pm[j], ent)
  }

  /** Words of the region outside `pm` are as before. */
  ghost predicate OthersKept(m: Mem, m': Mem, region: Word, pm: map<nat, nat>)
    requires TableRegion(region)
  {
    forall j :: 0 <= j < HIGH_PAGES && j !in pm ==> Read(m', TableWordAddr(region, j)) == Read(m, TableWordAddr(region, j))
  }

  lemma PageWordsAdd(m0: Mem, m: Mem, region: Word, pm: map<nat, nat>, j: nat, f: nat, w: Word, ent: InitMmuEntry)
    requires TableRegion(region) && j < HIGH_PAGES && PageReads(w, f, ent)
    requires PageWords(m, region, pm, ent) && OthersKept(m0, m, region, pm)
    ensures PageWords(Write(m, TableWordAddr(region, j), w), region, pm[j := f], ent)
    ensures OthersKept(m0, Write(m, TableWordAddr(region, j), w), region, pm[j := f])
  {
    hide PageReads;
    var m', pm' := Write(m, TableWordAddr(region, j), w), pm[j := f];
    forall i | 0 <= i < HIGH_PAGES
      ensures Read(m', TableWordAddr(region, i)) == if i == j then w else Read(m, TableWordAddr(region, i))
    {
      ReadWrite(m, TableWordAddr(region, j), w, TableWordAddr(region, i));
    }
  }

  lemma PageWordsJoin(m0: Mem, m: Mem, m': Mem, region: Word, pm: map<nat, nat>, pm2: map<nat, nat>, ent: InitMmuEntry)
    requires TableRegion(region) && PageWords(m, region, pm, ent) && OthersKept(m0, m, region, pm)
    requires PageWords(m', region, pm2, ent) && OthersKept(m, m', region, pm2)
    ensures PageWords(m', region, pm + pm2, ent) && OthersKept(m0, m', region, pm + pm2)
  {
    hide PageReads;
  }

  lemma TablesAdd(m: Mem, region: Word, pm: map<nat, nat>, j: nat, f: nat, w: Word)
    requires TableRegion(region) && Tables(m, region, pm) && j < 2 * WINDOW_PAGES && f < WINDOW_PAGES
    requires DecodeL2(w) == L2Small(KP_START + PAGE * f)
    ensures Tables(Write(m, TableWordAddr(region, j), w), region, pm[j := f])
  {
    var m', pm' := Write(m, TableWordAddr(region, j), w), pm[j := f];
    forall i | 0 <= i < HIGH_PAGES ensures TableEntry(m', region, pm', i) {
      assert TableEntry(m, region, pm, i);
      ReadWrite(m, TableWordAddr(region, j), w, TableWordAddr(region, i));
    }
  }

  /** The table of high slot 2048 + i: `base | (i << 10)`. */
  function TableOf(region: Word, i: nat): (t: Word)
    requires region % TABLE == 0 && i < 2048
    ensures t % TABLE == 0
  {
    NewTableAligned(region, i);
    NewTable(region, i)
  }

  /** Number of that table, counted from the region's base. */
  function TableNo(region: Word, i: nat): nat {
    if region % MMU_PGTB_SIZE == 0 then i else i % 1024
  }

  /** The slots get consecutive tables, or at an odd MiB the first 1024 tables twice. */
  lemma TableJoins(region: Word, i: nat)
    requires TableRegion(region) && i < 2048
    ensures region % TABLE == 0 && TableOf(region, i) == region + TABLE * TableNo(region, i)
  {
    MultipleOfPart(region, MB, TABLE, 1024);
    ShiftedIndex(i);
    if region % MMU_PGTB_SIZE == 0 {
      assert Pow2(21) == MMU_PGTB_SIZE by { PowersOfTwo(); assert Pow2(21) == 2 * Pow2(20); }
      OrIsAdd(region, TABLE * i, 21);
    } else {
      OddJoin(region, TABLE * i);
      TableOffset(i);
    }
  }

  lemma TableOffset(i: nat)
    ensures TABLE * i % MB == TABLE * (i % 1024)
  {
  }

  /** At an odd MiB an offset below 2 MiB only adds its part below 1 MiB. */
  lemma OddJoin(region: nat, x: nat)
    requires region % MB == 0 && region % MMU_PGTB_SIZE != 0 && x < MMU_PGTB_SIZE
    ensures Or(region, x) == region + x % MB
  {
    hide Or;
    assert Pow2(20) == MB by { PowersOfTwo(); }
    OddMegabyte(region);
    OrOddUnit(region, x, 20);
  }

  lemma OddMegabyte(region: nat)
    requires region % MB == 0 && region % MMU_PGTB_SIZE != 0
    ensures region / MB % 2 == 1
  {
  }

  // ----- init_map_kern_pgtb

  /** The entry built by one iteration. */
  function LoopEntry(reg: MmReg, ent: InitMmuEntry, i: nat): PgtbEntry
    requires Shl(i, 12) < WORD_LIMIT
  {
    PgtbEntry(OrWord(reg.base, Shl(i, 12)), OrWord(PhyToKvm(reg.base), Shl(i, 12)), ent.perms, PgtbSmallPg, ent.flags)
  }

  lemma ShiftedPage(i: nat)
    requires i < WINDOW_PAGES
    ensures Shl(i, 12) == PAGE * i < WINDOW
  {
    ShlIsTimes(i, 12);
    PowersOfTwo();
  }

  /** The page number of `base | (i << 12)`. */
  lemma JoinedPage(base: Word, i: nat)
    requires i < WINDOW_PAGES && Shl(i, 12) < WORD_LIMIT
    ensures OrWord(base, Shl(i, 12)) / PAGE == Or(base / PAGE, i)
  {
    assert Pow2(12) == PAGE by { PowersOfTwo(); }
    OrShr(base, Shl(i, 12), 12);
    ShrIsDiv(base, 12);
    ShrIsDiv(Shl(i, 12), 12);
    ShrIsDiv(OrWord(base, Shl(i, 12)), 12);
    ShiftedPage(i);
    assert PAGE * i / PAGE == i;
  }

  /** `|` below the number of a window leaves the window. */
  lemma JoinedInWindow(h: nat, q: nat, i: nat)
    requires q < WINDOW_PAGES && i < WINDOW_PAGES
    ensures Or(h * WINDOW_PAGES + q, i) == h * WINDOW_PAGES + Or(q, i)
  {
    WindowPagesPower();
    JoinField(h, WINDOW_PAGES, q, 17);
    OrAssoc(h * WINDOW_PAGES, q, i);
    OrBound(q, i, 17);
    JoinField(h, WINDOW_PAGES, Or(q, i), 17);
  }

  /** Where one iteration maps to, and the entry of the table that it takes. */
  lemma LoopPages(reg: MmReg, ent: InitMmuEntry, i: nat)
    requires InWindow(reg) && FirstPage(reg) < WINDOW_PAGES && i < WINDOW_PAGES && Shl(i, 12) < WORD_LIMIT
    ensures LoopEntry(reg, ent, i).phyAddr / PAGE == 0x6_0000 + Or(FirstPage(reg), i)
    ensures PageIndex(LoopEntry(reg, ent, i).virtAddr) == Or(FirstPage(reg), i) % 256
  {
    hide Or, PhyToKvm;
    var q := FirstPage(reg);
    KernVirtual(reg.base);
    PageNumbers(reg.base);
    JoinedPage(reg.base, i);
    JoinedPage(PhyToKvm(reg.base), i);
    JoinedInWindow(3, q, i);
    JoinedInWindow(4, q, i);
  }

  lemma PageNumbers(base: Word)
    requires KP_START <= base < KP_START + WINDOW
    ensures base / PAGE == 3 * WINDOW_PAGES + (base - KP_START) / PAGE
    ensures (base + WINDOW) / PAGE == 4 * WINDOW_PAGES + (base - KP_START) / PAGE
  {
  }

  lemma LoopDescriptor(reg: MmReg, ent: InitMmuEntry, i: nat)
    requires InWindow(reg) && FirstPage(reg) < WINDOW_PAGES && i < WINDOW_PAGES && Shl(i, 12) < WORD_LIMIT
    requires PlainAttributes(ent)
    ensures Or(FirstPage(reg), i) < WINDOW_PAGES
    ensures DecodeL2(PgtbWord(LoopEntry(reg, ent, i))) == L2Small(KP_START + PAGE * Or(FirstPage(reg), i))
  {
    LoopPages(reg, ent, i);
    LoopWordBound(FirstPage(reg), i);
    PgtbWordSmall(LoopEntry(reg, ent, i));
    PageExact(LoopEntry(reg, ent, i).phyAddr, Or(FirstPage(reg), i));
  }

  /** The word of one iteration. */
  lemma LoopFields(reg: MmReg, ent: InitMmuEntry, i: nat)
    requires InWindow(reg) && FirstPage(reg) < WINDOW_PAGES && i < WINDOW_PAGES && Shl(i, 12) < WORD_LIMIT
    requires PlainAttributes(ent)
    ensures PageReads(PgtbWord(LoopEntry(reg, ent, i)), Or(FirstPage(reg), i), ent)
  {
    hide And, Or;
    LoopPages(reg, ent, i);
    SmallPageFields(LoopEntry(reg, ent, i));
    PageExact(LoopEntry(reg, ent, i).phyAddr, Or(FirstPage(reg), i));
  }

  lemma PageExact(phy: Word, f: nat)
    requires phy / PAGE == 0x6_0000 + f
    ensures AlignDown(phy, PAGE) == KP_START + PAGE * f
  {
  }

  /** `((virt_addr - v_start) + (i << DIV_MULT_PG)) >> DIV_MULT_MB`, with v_start for N = 1 */
  method LoopIndex(reg: MmReg, i: nat) returns (index: nat)
    requires InWindow(reg) && FirstPage(reg) < WINDOW_PAGES && i < WINDOW_PAGES
    ensures index == (FirstPage(reg) + i) / 256 && index < 1024
  {
    KernVirtual(reg.base);
    ShiftedPage(i);
    var vStart := Pow2(31);
    assert vStart == HIGH_HALF && Pow2(20) == MB by { PowersOfTwo(); }
    var offset := PhyToKvm(reg.base) - vStart + Shl(i, 12);
    ShrIsDiv(offset, 20);
    SectionOfPage(reg.base - KP_START, i);
    index := Shr(offset, 20);
  }

  lemma SectionOfPage(offset: nat, i: nat)
    ensures (offset + PAGE * i) / MB == (offset / PAGE + i) / 256
  {
  }

  /** After `i` iterations: the region's frames, the attributes of the words written, and that
      nothing else is. */
  ghost predicate Mapping(m0: Mem, m: Mem, pgTb: Word, q: nat, i: nat, ent: InitMmuEntry, pm: map<nat, nat>)
    requires TableRegion(pgTb)
  {
    && Tables(m, pgTb, LoopMap(pm, q, i))
    && PageWords(m, pgTb, LoopMap(map[], q, i), ent)
    && OthersKept(m0, m, pgTb, LoopMap(map[], q, i))
    && OnlyChanged(m0, m, pgTb, pgTb + MMU_PGTB_SIZE)
  }

  /** `init_map_kern_pgtb`: the words written and their page frames. */
  method InitMapKernPgtb(mmu: Mmu, kernPgtb: Option<MmReg>, mapReg: Option<MmReg>, ent: Option<InitMmuEntry>,
                         ghost pm: map<nat, nat>)
    returns (ret: Errno)
    requires mmu.Shape() && mmu.PgDiv() == 1
    requires kernPgtb.Some? ==> TableRegion(kernPgtb.value.base) && Tables(mmu.Memory(), kernPgtb.value.base, pm)
    requires mapReg.Some? ==> InWindow(mapReg.value)
    requires ent.Some? ==> PlainAttributes(ent.value)
    modifies mmu.mem
    ensures ret == if kernPgtb.Some? && mapReg.Some? && ent.Some? then ESUCC else EINVAL
    ensures ret != ESUCC ==> mmu.Memory() == old(mmu.Memory())
    ensures ret == ESUCC ==> Tables(mmu.Memory(), kernPgtb.value.base, pm + RegionMap(mapReg.value))
    ensures ret == ESUCC ==> PageWords(mmu.Memory(), kernPgtb.value.base, RegionMap(mapReg.value), ent.value)
    ensures ret == ESUCC ==> OthersKept(old(mmu.Memory()), mmu.Memory(), kernPgtb.value.base, RegionMap(mapReg.value))
    ensures ret == ESUCC ==> OnlyChanged(old(mmu.Memory()), mmu.Memory(), kernPgtb.value.base, kernPgtb.value.base + MMU_PGTB_SIZE)
  {
    if kernPgtb.Some? && mapReg.Some? && ent.Some? {
      hide Tables, PageWords, OthersKept, OnlyChanged, LoopMap;
      ret := MapPages(mmu, kernPgtb.value.base, mapReg.value, ent.value, pm);
      LoopMapAdds(pm, FirstPage(mapReg.value), PgCnt(mapReg.value.size));
    } else {
      ret := EINVAL;
    }
  }

  /** Its loop. */
  method MapPages(mmu: Mmu, pgTb: Word, reg: MmReg, ent: InitMmuEntry, ghost pm: map<nat, nat>) returns (ret: Errno)
    requires mmu.Shape() && mmu.PgDiv() == 1
    requires TableRegion(pgTb) && Tables(mmu.Memory(), pgTb, pm) && InWindow(reg) && PlainAttributes(ent)
    modifies mmu.mem
    ensures ret == ESUCC
    ensures Mapping(old(mmu.Memory()), mmu.Memory(), pgTb, FirstPage(reg), PgCnt(reg.size), ent, pm)
  {
    hide Mapping, PgCnt, FirstPage, TableRegion;
    ret := ESUCC;
    var pgCnt := PgCnt(reg.size);
    var i := 0;
    PgCntFits(reg);
    MappingStarts(mmu.Memory(), pgTb, FirstPage(reg), ent, pm);
    while i < pgCnt && ret == ESUCC
      invariant 0 <= i <= pgCnt && ret == ESUCC
      invariant Mapping(old(mmu.Memory()), mmu.Memory(), pgTb, FirstPage(reg), i, ent, pm)
    {
      ret := MapOnePage(mmu, pgTb, reg, ent, i, pm, old(mmu.Memory()));
      i := i + 1;
    }
  }

  lemma MappingStarts(m: Mem, pgTb: Word, q: nat, ent: InitMmuEntry, pm: map<nat, nat>)
    requires TableRegion(pgTb) && Tables(m, pgTb, pm)
    ensures Mapping(m, m, pgTb, q, 0, ent, pm)
  {
  }

  lemma PgCntFits(reg: MmReg)
    requires InWindow(reg)
    ensures PgCnt(reg.size) <= WINDOW_PAGES
    ensures PgCnt(reg.size) > 0 ==> FirstPage(reg) < WINDOW_PAGES
  {
    PgCntInWindow(reg.size);
    if reg.size == 0 { PgCntBelowPage(reg.size); }
  }

  /** One iteration of the mapping loop. */
  method MapOnePage(mmu: Mmu, pgTb: Word, reg: MmReg, ent: InitMmuEntry, i: nat, ghost pm: map<nat, nat>, ghost m0: Mem)
    returns (ret: Errno)
    requires mmu.Shape() && mmu.PgDiv() == 1
    requires InWindow(reg) && FirstPage(reg) < WINDOW_PAGES && PlainAttributes(ent) && i < WINDOW_PAGES
    requires TableRegion(pgTb) && Mapping(m0, mmu.Memory(), pgTb, FirstPage(reg), i, ent, pm)
    modifies mmu.mem
    ensures ret == ESUCC && LoopWord(FirstPage(reg), i) < HIGH_PAGES && Shl(i, 12) < WORD_LIMIT
    ensures mmu.Memory() == Write(old(mmu.Memory()), TableWordAddr(pgTb, LoopWord(FirstPage(reg), i)),
                                  PgtbWord(LoopEntry(reg, ent, i)))
    ensures PageReads(PgtbWord(LoopEntry(reg, ent, i)), Or(FirstPage(reg), i), ent)
    ensures Mapping(m0, mmu.Memory(), pgTb, FirstPage(reg), i + 1, ent, pm)
  {
    hide Mapping, PageReads, Or, Shl, LoopWord, TableWordAddr;
    ShiftedPage(i);
    var index := LoopIndex(reg, i);
    LoopTarget(pgTb, reg, ent, i);
    LoopFields(reg, ent, i);
    AfterOnePage(m0, mmu.Memory(), pgTb, reg, ent, i, pm);
    ret := mmu.MapNewPgtb(NewTable(pgTb, index), Some(LoopEntry(reg, ent, i)));
  }

  /** The entry `e` of iteration `i` goes to the word that `LoopWord` names. */
  predicate WritesWord(pgTb: Word, reg: MmReg, e: PgtbEntry, i: nat)
    requires TableRegion(pgTb) && InWindow(reg)
    requires (FirstPage(reg) + i) / 256 < PGD_ENTRY_CNT && LoopWord(FirstPage(reg), i) < HIGH_PAGES
  {
    NewTable(pgTb, (FirstPage(reg) + i) / 256) + 4 * PageIndex(e.virtAddr) == TableWordAddr(pgTb, LoopWord(FirstPage(reg), i))
  }

  /** The word that iteration `i` writes. */
  lemma LoopTarget(pgTb: Word, reg: MmReg, ent: InitMmuEntry, i: nat)
    requires TableRegion(pgTb) && InWindow(reg) && FirstPage(reg) < WINDOW_PAGES && i < WINDOW_PAGES
    requires Shl(i, 12) < WORD_LIMIT
    ensures LoopWord(FirstPage(reg), i) < HIGH_PAGES
    ensures WritesWord(pgTb, reg, LoopEntry(reg, ent, i), i)
  {
    hide Or, FirstPage, PageIndex, NewTable, TableWordAddr, LoopEntry, LoopWord, Shl;
    LoopPages(reg, ent, i);
    LoopWordBound(FirstPage(reg), i);
    EntryOfLoopWord(pgTb, FirstPage(reg), i);
  }

  lemma EntryOfLoopWord(pgTb: Word, q: nat, i: nat)
    requires TableRegion(pgTb) && q < WINDOW_PAGES && i < WINDOW_PAGES && LoopWord(q, i) < HIGH_PAGES
    ensures (q + i) / 256 < PGD_ENTRY_CNT
    ensures NewTable(pgTb, (q + i) / 256) + 4 * (Or(q, i) % 256) == TableWordAddr(pgTb, LoopWord(q, i))
  {
    hide Or, NewTable, TableWordAddr;
    EntryOfTable(pgTb, (q + i) / 256, Or(q, i) % 256);
  }

  lemma EntryOfTable(pgTb: Word, a: nat, b: nat)
    requires TableRegion(pgTb) && a < 1024 && b < 256
    ensures NewTable(pgTb, a) + 4 * b == TableWordAddr(pgTb, 256 * a + b)
  {
    hide Or;
    TableJoins(pgTb, a);
  }

  lemma AfterOnePage(m0: Mem, m: Mem, pgTb: Word, reg: MmReg, ent: InitMmuEntry, i: nat, pm: map<nat, nat>)
    requires InWindow(reg) && FirstPage(reg) < WINDOW_PAGES && PlainAttributes(ent) && i < WINDOW_PAGES
    requires TableRegion(pgTb) && Mapping(m0, m, pgTb, FirstPage(reg), i, ent, pm)
    requires Shl(i, 12) < WORD_LIMIT && LoopWord(FirstPage(reg), i) < HIGH_PAGES
    ensures var m' := Write(m, TableWordAddr(pgTb, LoopWord(FirstPage(reg), i)), PgtbWord(LoopEntry(reg, ent, i)));
            Mapping(m0, m', pgTb, FirstPage(reg), i + 1, ent, pm)
  {
    hide Tables, PageWords, OthersKept, OnlyChanged, PageReads, LoopWord, Or, LoopEntry;
    var q := FirstPage(reg);
    var w := PgtbWord(LoopEntry(reg, ent, i));
    LoopDescriptor(reg, ent, i);
    LoopFields(reg, ent, i);
    LoopWordBound(q, i);
    TablesAdd(m, pgTb, LoopMap(pm, q, i), LoopWord(q, i), Or(q, i), w);
    PageWordsAdd(m0, m, pgTb, LoopMap(map[], q, i), LoopWord(q, i), Or(q, i), w, ent);
    WriteChanges(m0, m, pgTb, pgTb + MMU_PGTB_SIZE, TableWordAddr(pgTb, LoopWord(q, i)), w);
  }

  // ----- init_setup_kern_pgtb

  /** For which splits the directory loop reaches a different slot in every iteration: its
      `virt_addr | (i << 20)` is a sum only for N = 0 and N = 1. */
  lemma SetupLoopSplits(n: nat)
    requires n < 8
    ensures var start := if n > 0 then Pow2(32 - n) else 0;
            var count := if n > 0 then SLOTS - LowSlots(n) else SLOTS;
            (forall i, j :: 0 <= i < j < count ==> Or(start, Shl(i, 20)) != Or(start, Shl(j, 20))) <==> n <= 1
  {
    hide Or, Shl, Pow2, LowSlots;
    LowSlotsTable(n);
    var start := if n > 0 then Pow2(32 - n) else 0;
    var count := if n > 0 then SLOTS - LowSlots(n) else SLOTS;
    var k := if n == 1 then 11 else 12;
    SetupPowers();
    SetupStart(n);
    OrFamily(start, 20, k, count);
  }

  lemma SetupPowers()
    ensures Pow2(20) == SECTION && Pow2(12) == 4096 && Pow2(11) == 2048 && Pow2(10) == 1024
  {
    assert Pow2(12) == 2 * Pow2(11) && Pow2(11) == 2 * Pow2(10);
    PowersOfTwo();
  }

  /** The first slot of the high half, and for which splits it is a multiple of the count. */
  lemma SetupStart(n: nat)
    requires n < 8
    ensures var start := if n > 0 then Pow2(32 - n) else 0;
            start % SECTION == 0 && (start / SECTION % (if n == 1 then 2048 else 4096) == 0 <==> n <= 1)
  {
    hide Pow2, LowSlots;
    LowSlotsTable(n);
    if n > 0 {
      DivModUnique(Pow2(32 - n), SECTION, LowSlots(n), 0);
    }
  }

  /** The directory slots from 2048 up to 2048 + count point at their tables. */
  ghost predicate TablesInstalled(r: Regs, m: Mem, region: Word, count: nat)
    requires r.n == 1 && region % TABLE == 0 && count <= 2048
  {
    forall i :: 0 <= i < count ==> Descriptor(r, m, 2048 + i) == L1Table(TableOf(region, i))
  }

  /** The word of a slot whose table is at `t`, with the domain and flags of `ent`. */
  predicate TableReads(w: Word, t: Word, ent: InitMmuEntry) {
    && w == t + Or(32 * ent.domain, ent.flags) + 1
    && (ClearOfDomain(ent.flags) ==> DomainOf(w) == ent.domain && w == t + 32 * ent.domain + ent.flags + 1)
  }

  ghost predicate DirWords(r: Regs, m: Mem, region: Word, count: nat, ent: InitMmuEntry)
    requires r.n == 1 && region % TABLE == 0 && count <= 2048
  {
    forall i :: 0 <= i < count ==> TableReads(Read(m, SlotAddr(r, 2048 + i)), TableOf(region, i), ent)
  }

  lemma DirWordsStep(r: Regs, m: Mem, region: Word, i: nat, w: Word, ent: InitMmuEntry)
    requires r.n == 1 && region % TABLE == 0 && i < 2048
    requires DirWords(r, m, region, i, ent) && TableReads(w, TableOf(region, i), ent)
    ensures DirWords(r, Write(m, SlotAddr(r, 2048 + i), w), region, i + 1, ent)
  {
    hide TableReads, TableOf;
    var m' := Write(m, SlotAddr(r, 2048 + i), w);
    forall k | 0 <= k < i + 1 ensures TableReads(Read(m', SlotAddr(r, 2048 + k)), TableOf(region, k), ent) {
      HighSlotAddr(r, i);
      HighSlotAddr(r, k);
      ReadWrite(m, SlotAddr(r, 2048 + i), w, SlotAddr(r, 2048 + k));
    }
  }

  /** The part of the kernel directory that serves the high half. */
  lemma HighSlotAddr(r: Regs, i: nat)
    requires r.n == 1 && i < 2048
    ensures SlotAddr(r, 2048 + i) == DirAddr(KernDir(r), 2048 + i)
  {
    LowSlotsTable(1);
  }

  lemma InstallStep(r: Regs, m: Mem, region: Word, i: nat, w: Word)
    requires r.n == 1 && region % TABLE == 0 && i < 2048
    requires TablesInstalled(r, m, region, i) && DecodeL1(w) == L1Table(TableOf(region, i))
    ensures TablesInstalled(r, Write(m, SlotAddr(r, 2048 + i), w), region, i + 1)
  {
    var m' := Write(m, SlotAddr(r, 2048 + i), w);
    forall k | 0 <= k < i + 1 ensures Descriptor(r, m', 2048 + k) == L1Table(TableOf(region, k)) {
      HighSlotAddr(r, i);
      HighSlotAddr(r, k);
      ReadWrite(m, SlotAddr(r, 2048 + i), w, SlotAddr(r, 2048 + k));
    }
  }

  /** The directory entry of one iteration. */
  function SetupEntry(region: Word, ent: InitMmuEntry, i: nat): PgdEntry
    requires i < 2048
  {
    SetupWords(i);
    PgdEntry(NewTable(region, i), OrWord(HIGH_HALF, Shl(i, 20)), ent.domain, 0, PgdTable, ent.flags)
  }

  lemma SetupWords(i: nat)
    requires i < 2048
    ensures Shl(i, 20) == SECTION * i < WORD_LIMIT
    ensures OrWord(HIGH_HALF, Shl(i, 20)) == HIGH_HALF + SECTION * i
    ensures Slot(HIGH_HALF + SECTION * i) == 2048 + i
  {
    PowersOfTwo();
    ShlIsTimes(i, 20);
    OrIsAdd(HIGH_HALF, SECTION * i, 31);
    SlotSum(HIGH_HALF, i);
  }

  /** `init_setup_kern_pgtb` */
  method InitSetupKernPgtb(mmu: Mmu, kernPgd: Option<MmReg>, kernPgtb: Option<MmReg>, ent: InitMmuEntry)
    returns (ret: Errno)
    requires mmu.Shape() && mmu.PgDiv() == 1 && PlainAttributes(ent)
    requires kernPgtb.Some? ==> kernPgtb.value.base % TABLE == 0
    modifies mmu.mem
    ensures kernPgd.None? || kernPgtb.None? ==> ret == EINVAL
    ensures kernPgd.Some? && kernPgtb.Some? ==> ret == if mmu.Enabled() then ESUCC else ENOTENB
    ensures ret != ESUCC ==> mmu.Memory() == old(mmu.Memory())
    ensures ret == ESUCC ==> TablesInstalled(mmu.Registers(), mmu.Memory(), kernPgtb.value.base, 2048)
    ensures ret == ESUCC ==> DirWords(mmu.Registers(), mmu.Memory(), kernPgtb.value.base, 2048, ent)
    ensures ret == ESUCC ==> OnlyChanged(old(mmu.Memory()), mmu.Memory(),
                                         KernDir(mmu.Registers()) + 4 * 2048, KernDir(mmu.Registers()) + DIRECTORY)
  {
    ret := ESUCC;
    if kernPgd.Some? && kernPgtb.Some? {
      LowSlotsTable(1);
      var pgtbCnt := SLOTS - LowSlots(1);
      var i := 0;
      ghost var r := mmu.Registers();
      while i < pgtbCnt && ret == ESUCC
        invariant 0 <= i <= pgtbCnt
        invariant ret == ESUCC || (ret == ENOTENB && !mmu.Enabled())
        invariant ret == ESUCC && i > 0 ==> mmu.Enabled()
        invariant i == 0 ==> mmu.Memory() == old(mmu.Memory())
        invariant ret != ESUCC ==> mmu.Memory() == old(mmu.Memory())
        invariant ret == ESUCC ==> TablesInstalled(r, mmu.Memory(), kernPgtb.value.base, i)
        invariant ret == ESUCC ==> DirWords(r, mmu.Memory(), kernPgtb.value.base, i, ent)
        invariant ret == ESUCC ==> OnlyChanged(old(mmu.Memory()), mmu.Memory(), KernDir(r) + 4 * 2048, KernDir(r) + DIRECTORY)
        decreases pgtbCnt - i, ret == ESUCC
      {
        ret := InstallOne(mmu, kernPgtb.value.base, ent, i, old(mmu.Memory()));
        i := i + 1;
      }
    } else {
      ret := EINVAL;
    }
  }

  /** One iteration of the directory loop. */
  method InstallOne(mmu: Mmu, region: Word, ent: InitMmuEntry, i: nat, ghost m0: Mem) returns (ret: Errno)
    requires mmu.Shape() && mmu.PgDiv() == 1 && PlainAttributes(ent)
    requires region % TABLE == 0 && i < 2048
    requires TablesInstalled(mmu.Registers(), mmu.Memory(), region, i)
    requires DirWords(mmu.Registers(), mmu.Memory(), region, i, ent)
    requires OnlyChanged(m0, mmu.Memory(), KernDir(mmu.Registers()) + 4 * 2048, KernDir(mmu.Registers()) + DIRECTORY)
    modifies mmu.mem
    ensures ret == if mmu.Enabled() then ESUCC else ENOTENB
    ensures ret != ESUCC ==> mmu.Memory() == old(mmu.Memory())
    ensures ret == ESUCC ==> TablesInstalled(mmu.Registers(), mmu.Memory(), region, i + 1)
    ensures ret == ESUCC ==> DirWords(mmu.Registers(), mmu.Memory(), region, i + 1, ent)
    ensures ret == ESUCC ==> OnlyChanged(m0, mmu.Memory(), KernDir(mmu.Registers()) + 4 * 2048, KernDir(mmu.Registers()) + DIRECTORY)
  {
    ghost var r, m := mmu.Registers(), mmu.Memory();
    SetupWords(i);
    var pgdEnt := SetupEntry(region, ent, i);
    SetupDescriptor(region, ent, i);
    HighSlotAddr(r, i);
    InstallStep(r, m, region, i, PgdWord(pgdEnt));
    DirWordsStep(r, m, region, i, PgdWord(pgdEnt), ent);
    WriteChanges(m0, m, KernDir(r) + 4 * 2048, KernDir(r) + DIRECTORY, SlotAddr(r, 2048 + i), PgdWord(pgdEnt));
    ret := mmu.MapPgd(Some(pgdEnt));
  }

  lemma SetupDescriptor(region: Word, ent: InitMmuEntry, i: nat)
    requires region % TABLE == 0 && i < 2048 && PlainAttributes(ent)
    ensures SetupEntry(region, ent, i).virtAddr == HIGH_HALF + SECTION * i
    ensures DecodeL1(PgdWord(SetupEntry(region, ent, i))) == L1Table(TableOf(region, i))
    ensures TableReads(PgdWord(SetupEntry(region, ent, i)), TableOf(region, i), ent)
  {
    hide And, Or;
    SetupWords(i);
    NewTableAligned(region, i);
    PgdWordTable(SetupEntry(region, ent, i));
    TableFieldsSum(SetupEntry(region, ent, i));
  }

  // ----- translation after the switch

  /** The word of the region that serves a high address. */
  function ServingWord(region: Word, va: Word): (j: nat)
    requires va >= HIGH_HALF
    ensures j < HIGH_PAGES
  {
    256 * TableNo(region, (va - HIGH_HALF) / SECTION) + PageIndex(va)
  }

  /** The byte of page frame `f` that stands where `va` stands in its page. */
  function FrameByte(f: nat, va: Word): Word
    requires f < WINDOW_PAGES
  {
    KP_START + PAGE * f + va % PAGE
  }

  lemma LeafOfFrame(f: nat, va: Word)
    requires f < WINDOW_PAGES
    ensures (KP_START + PAGE * f) % PAGE == 0
    ensures Leaf(L2Small(KP_START + PAGE * f), va) == Some(FrameByte(f, va))
  {
  }

  /** Where an address goes that is served by word `j` of a region with the frames `pm`. */
  ghost function Mapped(pm: map<nat, nat>, j: nat, va: Word): Option<Word> {
    if j in pm && pm[j] < WINDOW_PAGES then Some(FrameByte(pm[j], va)) else None
  }

  /** With the tables installed a high address translates as its word of the region says. */
  lemma HighHalfTranslates(r: Regs, m: Mem, region: Word, pm: map<nat, nat>, va: Word)
    requires r.n == 1 && TableRegion(region) && region % TABLE == 0
    requires TablesInstalled(r, m, region, 2048) && Tables(m, region, pm)
    requires va >= HIGH_HALF
    ensures Walk(r, m, va) == Mapped(pm, ServingWord(region, va), va)
  {
    var j := ServingWord(region, va);
    HighSlotWalk(r, m, region, va);
    assert TableEntry(m, region, pm, j);
    if j in pm { LeafOfFrame(pm[j], va); }
  }

  lemma HighSlotWalk(r: Regs, m: Mem, region: Word, va: Word)
    requires r.n == 1 && TableRegion(region) && region % TABLE == 0
    requires TablesInstalled(r, m, region, 2048) && va >= HIGH_HALF
    ensures Walk(r, m, va) == Leaf(DecodeL2(Read(m, TableWordAddr(region, ServingWord(region, va)))), va)
  {
    var i := (va - HIGH_HALF) / SECTION;
    SlotDifference(va, 2048);
    TableJoins(region, i);
    assert Descriptor(r, m, 2048 + i) == L1Table(TableOf(region, i));
    assert EntryAddr(TableOf(region, i), PageIndex(va)) == TableWordAddr(region, ServingWord(region, va));
  }

  /** In the first GiB of the high half every page has its own word, wherever the region is. */
  lemma ServingWordBelow(region: Word, va: Word)
    requires HIGH_HALF <= va
    ensures va < HIGH_HALF + 0x4000_0000 || region % MMU_PGTB_SIZE == 0 ==>
              ServingWord(region, va) == (va - HIGH_HALF) / PAGE
    ensures va >= HIGH_HALF + 0x4000_0000 && region % MMU_PGTB_SIZE != 0 ==>
              ServingWord(region, va) == (va - HIGH_HALF) / PAGE - 2 * WINDOW_PAGES
  {
    SplitPageNumber(va);
  }

  lemma SplitPageNumber(va: Word)
    requires va >= HIGH_HALF
    ensures (va - HIGH_HALF) / PAGE == 256 * ((va - HIGH_HALF) / SECTION) + PageIndex(va)
    ensures va < HIGH_HALF + 0x4000_0000 <==> (va - HIGH_HALF) / SECTION < 1024
    ensures (va - HIGH_HALF) / SECTION < 2048
  {
  }

  /** A byte of the physical window is found at its kernel virtual address, 512 MiB higher, exactly
      when its page has its own frame. */
  lemma KernelWindowTranslates(r: Regs, m: Mem, region: Word, pm: map<nat, nat>, p: Word)
    requires r.n == 1 && TableRegion(region) && region % TABLE == 0
    requires TablesInstalled(r, m, region, 2048) && Tables(m, region, pm)
    requires KP_START <= p < KP_START + WINDOW
    ensures Walk(r, m, p + WINDOW) == Some(p) <==> Own(pm, PageOf(p))
  {
    hide Walk;
    HighHalfTranslates(r, m, region, pm, p + WINDOW);
    ServingWordBelow(region, p + WINDOW);
    PageOfWindow(p);
    if PageOf(p) in pm {
      FrameOfByte(pm[PageOf(p)], p);
    }
  }

  lemma PageOfWindow(p: Word)
    requires KP_START <= p < KP_START + WINDOW
    ensures (p + WINDOW - HIGH_HALF) / PAGE == PageOf(p) < WINDOW_PAGES
    ensures (p + WINDOW) % PAGE == p % PAGE
  {
  }

  lemma FrameOfByte(f: nat, p: Word)
    requires KP_START <= p && f < WINDOW_PAGES
    ensures FrameByte(f, p) == p <==> f == PageOf(p)
  {
  }

  /** The 2048 slots get different tables exactly when the region is aligned to its own size. */
  lemma TablesDistinct(region: Word)
    requires TableRegion(region)
    ensures region % TABLE == 0
    ensures region % MMU_PGTB_SIZE == 0 <==>
            forall i, j :: 0 <= i < j < 2048 ==> TableOf(region, i) != TableOf(region, j)
  {
    TableJoins(region, 0);
    TableJoins(region, 1024);
    if region % MMU_PGTB_SIZE == 0 {
      forall i, j | 0 <= i < j < 2048 ensures TableOf(region, i) != TableOf(region, j) {
        TableJoins(region, i);
        TableJoins(region, j);
      }
    } else {
      assert TableOf(region, 0) == TableOf(region, 1024);
    }
  }

  /** The high half maps page j of the window to the frame that `pm` has for it, and nothing else. */
  ghost predicate HighHalfMaps(r: Regs, m: Mem, pm: map<nat, nat>)
    requires ValidRegs(r)
  {
    forall va: Word :: va >= HIGH_HALF ==> Walk(r, m, va) == Mapped(pm, (va - HIGH_HALF) / PAGE, va)
  }

  /** Once something is mapped, the high half maps the pages of `pm` and nothing else exactly when
      the region is aligned to its own size. Otherwise it appears a second time, 1 GiB higher. */
  lemma HighHalfExactly(r: Regs, m: Mem, region: Word, pm: map<nat, nat>)
    requires r.n == 1 && TableRegion(region) && region % TABLE == 0 && pm != map[]
    requires TablesInstalled(r, m, region, 2048) && Tables(m, region, pm)
    ensures HighHalfMaps(r, m, pm) <==> region % MMU_PGTB_SIZE == 0
  {
    if region % MMU_PGTB_SIZE == 0 {
      forall va: Word | va >= HIGH_HALF ensures Walk(r, m, va) == Mapped(pm, (va - HIGH_HALF) / PAGE, va) {
        HighHalfTranslates(r, m, region, pm, va);
        ServingWordBelow(region, va);
      }
    } else {
      var j :| j in pm;
      var va: Word := HIGH_HALF + PAGE * (j + 2 * WINDOW_PAGES);
      AliasPage(j);
      HighHalfTranslates(r, m, region, pm, va);
      ServingWordBelow(region, va);
      assert Walk(r, m, va) != Mapped(pm, (va - HIGH_HALF) / PAGE, va);
    }
  }

  lemma AliasPage(j: nat)
    requires j < 2 * WINDOW_PAGES
    ensures HIGH_HALF + 0x4000_0000 <= HIGH_HALF + PAGE * (j + 2 * WINDOW_PAGES) < WORD_LIMIT
    ensures PAGE * (j + 2 * WINDOW_PAGES) / PAGE == j + 2 * WINDOW_PAGES
  {
  }

  /** The address computed for an image that ends below 1 MiB: the slots of 0x8000_0000 and of
      0xC000_0000 share a table. */
  lemma OddRegionShares()
    ensures TableRegion(0x6010_0000) && 0x6010_0000 % MMU_PGTB_SIZE != 0
    ensures Slot(0x8000_0000) == 2048 && Slot(0xC000_0000) == 2048 + 1024
    ensures NewTable(0x6010_0000, 0) == NewTable(0x6010_0000, 1024)
  {
    TableJoins(0x6010_0000, 0);
    TableJoins(0x6010_0000, 1024);
  }
}
