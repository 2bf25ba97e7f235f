/** armv7_arch_mmu.c: the architecture-independent interface on top of the page tables, and its
    meaning as a map from virtual pages to physical ones.
 */
module ArchMmu {
  import opened Bits
  import opened Types
  import opened MmuWalk
  import opened Descriptors
  import opened DescriptorFields
  import opened Armv7Mmu

  datatype EntryType = PG_DIR | PG_TAB | PG_DIR_INVAL | PG_TAB_INVAL

  datatype AccFlags = USER | KERN_USER | KERNEL | KERNEL_RO | DEVICE

  datatype MmuEntry = MmuEntry(phyAddr: Word, virtAddr: Word, ty: EntryType, accFlags: AccFlags)

  /** `arch_mmu_acc_to_domain` */
  function AccToDomain(flags: AccFlags): Byte {
    match flags
    case USER => 0
    case KERN_USER => 0
    case KERNEL_RO => 1
    case KERNEL => 1
    case DEVICE => 1
  }

  /** `arch_mmu_acc_to_armv7` */
  function AccToArmv7(flags: AccFlags): AccPerm {
    match flags
    case USER => 1
    case KERN_USER => 3
    case KERNEL => 0
    case KERNEL_RO => 2
    case DEVICE => 0
  }

  /** What a permission of armv7_mmu.h allows. */
  datatype Rights = Rights(kernelWrites: bool, userReads: bool, userWrites: bool)

  function RightsOf(ap: nat): Rights {
    if ap == 0 then Rights(true, false, false)         // ARMV7_MMU_ACC_KRW_NOU
    else if ap == 1 then Rights(true, true, true)      // ARMV7_MMU_ACC_KRW_URW
    else if ap == 2 then Rights(false, false, false)   // ARMV7_MMU_ACC_KRO_NOU
    else Rights(false, true, false)                    // ARMV7_MMU_ACC_KRO_URO
  }

  /** The access flags of the interface: user space reads what is its own or shared with it, writes
      only its own, and these alone are in the user domain 0; the kernel writes everything but
      read-only and shared pages. */
  lemma AccessGranted(flags: AccFlags)
    ensures RightsOf(AccToArmv7(flags)).userReads <==> flags == USER || flags == KERN_USER
    ensures RightsOf(AccToArmv7(flags)).userWrites <==> flags == USER
    ensures RightsOf(AccToArmv7(flags)).kernelWrites <==> flags != KERN_USER && flags != KERNEL_RO
    ensures AccToDomain(flags) == if flags == USER || flags == KERN_USER then 0 else 1
  {
  }

  predicate IsDir(ty: EntryType) {
    ty == PG_DIR || ty == PG_DIR_INVAL
  }

  /** The directory entry that an interface entry stands for. The kernel leaves the permission of
      a table entry unset; it is not part of the word. */
  function ToPgd(e: MmuEntry): PgdEntry {
    PgdEntry(e.phyAddr, e.virtAddr, AccToDomain(e.accFlags), 0, if e.ty == PG_DIR then PgdTable else PgdInvalid, 0)
  }

  function ToPgtb(e: MmuEntry): PgtbEntry {
    PgtbEntry(e.phyAddr, e.virtAddr, AccToArmv7(e.accFlags), if e.ty == PG_TAB then PgtbSmallPg else PgtbInvalid, 0)
  }

  // ----- the effect of one call

  /** Error code and memory after `arch_mmu_create_entry` with the MMU on. */
  function Create(r: Regs, m: Mem, e: MmuEntry): (Errno, Mem)
    requires ValidRegs(r)
  {
    if IsDir(e.ty) then
      (ESUCC, Write(m, SlotAddr(r, Slot(e.virtAddr)), PgdWord(ToPgd(e))))
    else if Descriptor(r, m, Slot(e.virtAddr)).L1Table? then
      (ESUCC, Write(m, EntryAddr(Descriptor(r, m, Slot(e.virtAddr)).base, PageIndex(e.virtAddr)), PgtbWord(ToPgtb(e))))
    else
      (ENOTFND, m)
  }

  /** What a successful call leaves in the descriptor it is for: the base, the fields that stand for
      the access flags, and the type. */
  predicate StoredFields(r: Regs, m: Mem, m': Mem, e: MmuEntry)
    requires ValidRegs(r)
  {
    && (e.ty == PG_DIR ==>
          var w := Read(m', SlotAddr(r, Slot(e.virtAddr)));
          DomainOf(w) == AccToDomain(e.accFlags) && w == AlignDown(e.phyAddr, TABLE) + 32 * AccToDomain(e.accFlags) + 1)
    && (e.ty == PG_TAB && Descriptor(r, m, Slot(e.virtAddr)).L1Table? ==>
          var w := Read(m', EntryAddr(Descriptor(r, m, Slot(e.virtAddr)).base, PageIndex(e.virtAddr)));
          PageAp(w) == AccToArmv7(e.accFlags) && w == AlignDown(e.phyAddr, PAGE) + 16 * AccToArmv7(e.accFlags) + 2)
  }

  lemma EntryFields(e: MmuEntry)
    requires e.ty == PG_TAB || e.ty == PG_DIR
    ensures e.ty == PG_TAB ==>
              var w := PgtbWord(ToPgtb(e));
              PageAp(w) == AccToArmv7(e.accFlags) && w == AlignDown(e.phyAddr, PAGE) + 16 * AccToArmv7(e.accFlags) + 2
    ensures e.ty == PG_DIR ==>
              var w := PgdWord(ToPgd(e));
              DomainOf(w) == AccToDomain(e.accFlags) && w == AlignDown(e.phyAddr, TABLE) + 32 * AccToDomain(e.accFlags) + 1
  {
    hide And, Or, PgtbWord, PgdWord, PageAp, DomainOf, AccToArmv7, AccToDomain;
    if e.ty == PG_TAB {
      SmallPageFields(ToPgtb(e));
    } else {
      DomainBelow16(e.accFlags);
      TableFieldsSum(ToPgd(e));
    }
  }

  lemma DomainBelow16(flags: AccFlags)
    ensures AccToDomain(flags) < 16
  {
  }

  /** `arch_mmu_create_entry` */
  method CreateEntry(mmu: Mmu, entry: MmuEntry) returns (ret: Errno)
    requires mmu.Shape()
    modifies mmu.mem
    ensures !mmu.Enabled() ==> ret == ENOTENB && mmu.Memory() == old(mmu.Memory())
    ensures mmu.Enabled() ==> (ret, mmu.Memory()) == Create(mmu.Registers(), old(mmu.Memory()), entry)
    ensures mmu.Enabled() && IsDir(entry.ty) ==> ret == ESUCC
    ensures mmu.Enabled() && !IsDir(entry.ty) ==>
              ret == if Descriptor(mmu.Registers(), old(mmu.Memory()), Slot(entry.virtAddr)).L1Table? then ESUCC else ENOTFND
    ensures ret != ESUCC ==> mmu.Memory() == old(mmu.Memory())
    ensures ret == ESUCC ==> mmu.Enabled() && StoredFields(mmu.Registers(), old(mmu.Memory()), mmu.Memory(), entry)
  {
    if entry.ty == PG_TAB || entry.ty == PG_DIR { EntryFields(entry); }
    match entry.ty {
      case PG_DIR | PG_DIR_INVAL =>
        var pgdEntry := PgdEntry(entry.phyAddr, entry.virtAddr, AccToDomain(entry.accFlags), 0,
                                 if entry.ty == PG_DIR then PgdTable else PgdInvalid, 0);
        ret := mmu.MapPgd(Some(pgdEntry));
      case PG_TAB | PG_TAB_INVAL =>
        var pgtbEntry := PgtbEntry(entry.phyAddr, entry.virtAddr, AccToArmv7(entry.accFlags),
                                   if entry.ty == PG_TAB then PgtbSmallPg else PgtbInvalid, 0);
        ret := mmu.MapPgtb(Some(pgtbEntry));
    }
  }

  // ----- what it means for the page map

  /** The byte of the page of `phy` that stands where `va` stands in its own page. */
  function PageTarget(phy: Word, va: Word): (pa: Word)
    ensures pa / PAGE == phy / PAGE && pa % PAGE == va % PAGE
  {
    PageParts(phy, va % PAGE);
    AlignDown(phy, PAGE) + va % PAGE
  }

  lemma PageParts(phy: Word, offset: nat)
    requires offset < PAGE
    ensures AlignDown(phy, PAGE) + offset < WORD_LIMIT
    ensures (AlignDown(phy, PAGE) + offset) / PAGE == phy / PAGE
    ensures (AlignDown(phy, PAGE) + offset) % PAGE == offset
  {
  }

  lemma PageWriteKeeps(r: Regs, m: Mem, e: MmuEntry)
    requires ValidRegs(r) && Separated(r, m) && !IsDir(e.ty) && Descriptor(r, m, Slot(e.virtAddr)).L1Table?
    ensures Separated(r, Create(r, m, e).1)
    ensures forall s :: 0 <= s < SLOTS ==> Descriptor(r, Create(r, m, e).1, s) == Descriptor(r, m, s)
  {
    TableWrite(r, m, e.virtAddr, PgtbWord(ToPgtb(e)));
  }

  lemma PageWriteAt(r: Regs, m: Mem, e: MmuEntry, d: L2, va: Word)
    requires ValidRegs(r) && Separated(r, m) && !IsDir(e.ty)
    requires Descriptor(r, m, Slot(e.virtAddr)).L1Table? && d == DecodeL2(PgtbWord(ToPgtb(e)))
    ensures Walk(r, Create(r, m, e).1, va) == if va / PAGE == e.virtAddr / PAGE then Leaf(d, va) else Walk(r, m, va)
  {
    TableWriteAt(r, m, e.virtAddr, PgtbWord(ToPgtb(e)), va);
  }

  lemma LeafOfSmall(phy: Word, va: Word)
    ensures Leaf(L2Small(AlignDown(phy, PAGE)), va) == Some(PageTarget(phy, va))
  {
  }

  lemma MapPageAt(r: Regs, m: Mem, e: MmuEntry, va: Word)
    requires ValidRegs(r) && Separated(r, m) && e.ty == PG_TAB && Descriptor(r, m, Slot(e.virtAddr)).L1Table?
    ensures Walk(r, Create(r, m, e).1, va) ==
            if va / PAGE == e.virtAddr / PAGE then Some(PageTarget(e.phyAddr, va)) else Walk(r, m, va)
  {
    PgtbWordSmall(ToPgtb(e));
    LeafOfSmall(e.phyAddr, va);
    PageWriteAt(r, m, e, L2Small(AlignDown(e.phyAddr, PAGE)), va);
  }

  lemma UnmapPageAt(r: Regs, m: Mem, e: MmuEntry, va: Word)
    requires ValidRegs(r) && Separated(r, m) && e.ty == PG_TAB_INVAL && Descriptor(r, m, Slot(e.virtAddr)).L1Table?
    ensures if va / PAGE == e.virtAddr / PAGE
            then Walk(r, Create(r, m, e).1, va).None? <==> e.phyAddr % 4 == 0 || e.phyAddr % 4 == 3
            else Walk(r, Create(r, m, e).1, va) == Walk(r, m, va)
  {
    PgtbWordInvalid(ToPgtb(e));
    PageWriteAt(r, m, e, DecodeL2(PgtbWord(ToPgtb(e))), va);
  }

  /** PG_TAB maps exactly the one page of `e.virtAddr`, to the page of `e.phyAddr`. */
  lemma MapPageEffect(r: Regs, m: Mem, e: MmuEntry)
    requires ValidRegs(r) && Separated(r, m) && e.ty == PG_TAB
    requires Descriptor(r, m, Slot(e.virtAddr)).L1Table?
    ensures Create(r, m, e).0 == ESUCC
    ensures Separated(r, Create(r, m, e).1)
    ensures forall va: Word ::
              Walk(r, Create(r, m, e).1, va) ==
              if va / PAGE == e.virtAddr / PAGE then Some(PageTarget(e.phyAddr, va)) else Walk(r, m, va)
  {
    PageWriteKeeps(r, m, e);
    forall va: Word
      ensures Walk(r, Create(r, m, e).1, va) ==
              if va / PAGE == e.virtAddr / PAGE then Some(PageTarget(e.phyAddr, va)) else Walk(r, m, va)
    {
      MapPageAt(r, m, e, va);
    }
  }

  /** PG_TAB_INVAL changes only that page, and unmaps it exactly when the physical address it is
      given does not end in 0b01 or 0b10: its low bits are stored as the type. */
  lemma UnmapPageEffect(r: Regs, m: Mem, e: MmuEntry)
    requires ValidRegs(r) && Separated(r, m) && e.ty == PG_TAB_INVAL
    requires Descriptor(r, m, Slot(e.virtAddr)).L1Table?
    ensures Create(r, m, e).0 == ESUCC
    ensures Separated(r, Create(r, m, e).1)
    ensures forall va: Word | va / PAGE != e.virtAddr / PAGE :: Walk(r, Create(r, m, e).1, va) == Walk(r, m, va)
    ensures forall va: Word | va / PAGE == e.virtAddr / PAGE ::
              Walk(r, Create(r, m, e).1, va).None? <==> e.phyAddr % 4 == 0 || e.phyAddr % 4 == 3
  {
    PageWriteKeeps(r, m, e);
    forall va: Word | va / PAGE != e.virtAddr / PAGE
      ensures Walk(r, Create(r, m, e).1, va) == Walk(r, m, va)
    {
      UnmapPageAt(r, m, e, va);
    }
    forall va: Word | va / PAGE == e.virtAddr / PAGE
      ensures Walk(r, Create(r, m, e).1, va).None? <==> e.phyAddr % 4 == 0 || e.phyAddr % 4 == 3
    {
      UnmapPageAt(r, m, e, va);
    }
  }

  /** PG_DIR points one 1 MiB slot at the table at `e.phyAddr`. The tables stay separated exactly
      when that table is clear of the directories and serves no other slot. */
  lemma MapTableEffect(r: Regs, m: Mem, e: MmuEntry)
    requires ValidRegs(r) && Separated(r, m) && e.ty == PG_DIR
    ensures Create(r, m, e).0 == ESUCC
    ensures var m' := Create(r, m, e).1;
            var t := AlignDown(e.phyAddr, TABLE);
            && (forall va: Word | Slot(va) != Slot(e.virtAddr) :: Walk(r, m', va) == Walk(r, m, va))
            && (forall va: Word | Slot(va) == Slot(e.virtAddr) :: Walk(r, m', va) == TableWalk(m', t, va))
            && (ClearOfDirs(r, t) ==>
                  forall va: Word | Slot(va) == Slot(e.virtAddr) :: Walk(r, m', va) == TableWalk(m, t, va))
            && (Separated(r, m') <==>
                && ClearOfDirs(r, t)
                && forall s :: 0 <= s < SLOTS && s != Slot(e.virtAddr) && Descriptor(r, m, s).L1Table? ==>
                                 Descriptor(r, m, s).base != t)
  {
    var slot, w, t := Slot(e.virtAddr), PgdWord(ToPgd(e)), AlignDown(e.phyAddr, TABLE);
    PgdWordTable(ToPgd(e));
    DirWrite(r, m, slot, w);
    DirWriteSeparated(r, m, slot, w);
    if ClearOfDirs(r, t) {
      forall va: Word | Slot(va) == slot ensures Walk(r, Create(r, m, e).1, va) == TableWalk(m, t, va) {
        ReadWrite(m, SlotAddr(r, slot), w, EntryAddr(t, PageIndex(va)));
      }
    }
  }

  /** PG_DIR_INVAL unmaps one whole 1 MiB slot and nothing else. */
  lemma UnmapTableEffect(r: Regs, m: Mem, e: MmuEntry)
    requires ValidRegs(r) && Separated(r, m) && e.ty == PG_DIR_INVAL
    ensures Create(r, m, e).0 == ESUCC
    ensures Separated(r, Create(r, m, e).1)
    ensures forall va: Word :: Walk(r, Create(r, m, e).1, va) ==
                               if Slot(va) == Slot(e.virtAddr) then None else Walk(r, m, va)
  {
    PgdWordInvalid(ToPgd(e));
    DirWrite(r, m, Slot(e.virtAddr), PgdWord(ToPgd(e)));
    DirWriteSeparated(r, m, Slot(e.virtAddr), PgdWord(ToPgd(e)));
  }

  // ----- runs

  ghost function RunCreate(r: Regs, m: Mem, es: seq<MmuEntry>): Mem
    requires ValidRegs(r)
    decreases |es|
  {
    if es == [] then m else RunCreate(r, Create(r, m, es[0]).1, es[1..])
  }

  /** One address seen abstractly: whether a page table backs it, and where it maps. */
  datatype View = View(backed: bool, target: Option<Word>)

  ghost function ViewOf(r: Regs, m: Mem, va: Word): View
    requires ValidRegs(r)
  {
    View(Descriptor(r, m, Slot(va)).L1Table?, Walk(r, m, va))
  }

  function SetPage(v: View, e: MmuEntry, va: Word, target: Option<Word>): View {
    if v.backed && va / PAGE == e.virtAddr / PAGE then v.(target := target) else v
  }

  /** The abstract page map: pages change only where a table backs them, slots go and come as a
      whole, and a new slot is empty. */
  function ViewStep(v: View, e: MmuEntry, va: Word): View {
    match e.ty
    case PG_TAB => SetPage(v, e, va, Some(PageTarget(e.phyAddr, va)))
    case PG_TAB_INVAL => SetPage(v, e, va, None)
    case PG_DIR_INVAL =>
      if Slot(va) == Slot(e.virtAddr) then View(false, None) else v
    case PG_DIR =>
      if Slot(va) == Slot(e.virtAddr) then View(true, None) else v
  }

  function ViewRun(v: View, es: seq<MmuEntry>, va: Word): View
    decreases |es|
  {
    if es == [] then v else ViewRun(ViewStep(v, es[0], va), es[1..], va)
  }

  /** The table that `e` installs is cleared, clear of the directories and in no other slot. */
  ghost predicate FreshTable(r: Regs, m: Mem, e: MmuEntry)
    requires ValidRegs(r)
  {
    var t := AlignDown(e.phyAddr, TABLE);
    && ClearOfDirs(r, t)
    && (forall s :: 0 <= s < SLOTS && s != Slot(e.virtAddr) && Descriptor(r, m, s).L1Table? ==>
                      Descriptor(r, m, s).base != t)
    && forall va: Word :: TableWalk(m, t, va) == None
  }

  /** What a caller passes: fresh tables, and physical address 0 to unmap a page, as
      `mmu_invalidate_page` does. */
  ghost predicate PlainEntry(r: Regs, m: Mem, e: MmuEntry)
    requires ValidRegs(r)
  {
    && (e.ty == PG_DIR ==> FreshTable(r, m, e))
    && (e.ty == PG_TAB_INVAL ==> e.phyAddr % 4 == 0)
  }

  ghost predicate PlainRun(r: Regs, m: Mem, es: seq<MmuEntry>)
    requires ValidRegs(r)
    decreases |es|
  {
    es == [] || (PlainEntry(r, m, es[0]) && PlainRun(r, Create(r, m, es[0]).1, es[1..]))
  }

  lemma MapTableRefines(r: Regs, m: Mem, e: MmuEntry, va: Word)
    requires ValidRegs(r) && Separated(r, m) && e.ty == PG_DIR && FreshTable(r, m, e)
    ensures Separated(r, Create(r, m, e).1)
    ensures ViewOf(r, Create(r, m, e).1, va) == ViewStep(ViewOf(r, m, va), e, va)
  {
    MapTableEffect(r, m, e);
    PgdWordTable(ToPgd(e));
    DirWrite(r, m, Slot(e.virtAddr), PgdWord(ToPgd(e)));
  }

  lemma UnmapTableRefines(r: Regs, m: Mem, e: MmuEntry, va: Word)
    requires ValidRegs(r) && Separated(r, m) && e.ty == PG_DIR_INVAL
    ensures Separated(r, Create(r, m, e).1)
    ensures ViewOf(r, Create(r, m, e).1, va) == ViewStep(ViewOf(r, m, va), e, va)
  {
    UnmapTableEffect(r, m, e);
    PgdWordInvalid(ToPgd(e));
    DirWrite(r, m, Slot(e.virtAddr), PgdWord(ToPgd(e)));
  }

  lemma PageRefines(r: Regs, m: Mem, e: MmuEntry, va: Word, target: Option<Word>)
    requires ValidRegs(r) && Separated(r, m) && !IsDir(e.ty)
    requires Descriptor(r, m, Slot(e.virtAddr)).L1Table? ==>
               Walk(r, Create(r, m, e).1, va) == if va / PAGE == e.virtAddr / PAGE then target else Walk(r, m, va)
    ensures Separated(r, Create(r, m, e).1)
    ensures ViewOf(r, Create(r, m, e).1, va) == SetPage(ViewOf(r, m, va), e, va, target)
  {
    assert va / PAGE == e.virtAddr / PAGE ==> Slot(va) == Slot(e.virtAddr) by { SamePage(va, e.virtAddr); }
    if Descriptor(r, m, Slot(e.virtAddr)).L1Table? {
      PageWriteKeeps(r, m, e);
    }
  }

  lemma MapPageRefines(r: Regs, m: Mem, e: MmuEntry, va: Word)
    requires ValidRegs(r) && Separated(r, m) && e.ty == PG_TAB
    ensures Separated(r, Create(r, m, e).1)
    ensures ViewOf(r, Create(r, m, e).1, va) == ViewStep(ViewOf(r, m, va), e, va)
  {
    if Descriptor(r, m, Slot(e.virtAddr)).L1Table? {
      MapPageAt(r, m, e, va);
    }
    PageRefines(r, m, e, va, Some(PageTarget(e.phyAddr, va)));
  }

  lemma UnmapPageRefines(r: Regs, m: Mem, e: MmuEntry, va: Word)
    requires ValidRegs(r) && Separated(r, m) && e.ty == PG_TAB_INVAL && e.phyAddr % 4 == 0
    ensures Separated(r, Create(r, m, e).1)
    ensures ViewOf(r, Create(r, m, e).1, va) == ViewStep(ViewOf(r, m, va), e, va)
  {
    if Descriptor(r, m, Slot(e.virtAddr)).L1Table? {
      UnmapPageAt(r, m, e, va);
    }
    PageRefines(r, m, e, va, None);
  }

  /** Over any run of calls the tables refine the abstract page map, address by address. */
  lemma {:induction false} RunRefines(r: Regs, m: Mem, es: seq<MmuEntry>, va: Word)
    requires ValidRegs(r) && Separated(r, m) && PlainRun(r, m, es)
    ensures Separated(r, RunCreate(r, m, es))
    ensures ViewOf(r, RunCreate(r, m, es), va) == ViewRun(ViewOf(r, m, va), es, va)
    decreases |es|
  {
    if es != [] {
      var e := es[0];
      match e.ty {
        case PG_DIR => MapTableRefines(r, m, e, va);
        case PG_TAB => MapPageRefines(r, m, e, va);
        case PG_DIR_INVAL => UnmapTableRefines(r, m, e, va);
        case PG_TAB_INVAL => UnmapPageRefines(r, m, e, va);
      }
      RunRefines(r, Create(r, m, e).1, es[1..], va);
    }
  }
}
