/** armv7_mmu.c: reading and writing the page tables of the running MMU.

    Physical memory is an array of words; the control registers are fields. The kernel
    dereferences table addresses while the low half is mapped one to one, so a pointer here is a
    physical address. TLB maintenance and barriers have no effect on this state.
 */
module Armv7Mmu {
  import opened Bits
  import opened Types
  import opened MmuWalk
  import opened Descriptors

  // ----- the split

  /** `is_higher_half` */
  predicate IsHigherHalf(virtAddr: Word, n: nat)
    requires n < 8
  {
    n > 0 && virtAddr >= Pow2(32 - n)
  }

  /** The test agrees with section B3.5.4: TTBR1 is used when the top N bits are not all zero. */
  lemma HigherHalfIsTopBits(virtAddr: Word, n: nat)
    requires n < 8
    ensures IsHigherHalf(virtAddr, n) <==> Shr(virtAddr, 32 - n) != 0
    ensures IsHigherHalf(virtAddr, n) <==> HighSlot(n, Slot(virtAddr))
  {
    LowSlotsTable(n);
    ShrIsDiv(virtAddr, 32 - n);
    if n == 0 {
      PowersOfTwo();
      SmallMod(virtAddr, Pow2(32));
    } else if virtAddr < Pow2(32 - n) {
      SmallMod(virtAddr, Pow2(32 - n));
    } else {
      QuotientPositive(virtAddr, Pow2(32 - n));
    }
  }

  lemma QuotientPositive(x: nat, d: nat)
    requires 0 < d <= x
    ensures x / d > 0
  {
    assert x == (x / d) * d + x % d;
    if x / d == 0 {
      assert false;
    }
  }

  /** `~((1 << (TTBR_ALIGN - pg_div)) - 1)` */
  function UserMask(n: nat): Word
    requires n < 8
  {
    LowSlotsTable(n);
    Not(Pow2(14 - n) - 1)
  }

  lemma UserMaskMeaning(w: Word, n: nat)
    requires n < 8
    ensures AndWord(w, UserMask(n)) == AlignDown(w, 4 * LowSlots(n))
  {
    LowSlotsTable(n);
    PowersOfTwo();
    AndHighMask(w, 14 - n, 32);
  }

  // Base and offset below a power of two are joined by `|` as by `+`.

  lemma SectionAddr(desc: Word, virtAddr: Word)
    ensures OrWord(AndWord(desc, PGD_SECT_MASK), AndWord(virtAddr, Not(PGD_SECT_MASK))) ==
            AlignDown(desc, SECTION) + virtAddr % SECTION
  {
    assert Pow2(20) == SECTION by { PowersOfTwo(); }
    SectMask(desc);
    SectMask(virtAddr);
    OrIsAdd(AlignDown(desc, SECTION), virtAddr % SECTION, 20);
  }

  lemma LargeAddr(desc: Word, virtAddr: Word)
    ensures OrWord(AndWord(desc, PGTB_LG_PG_MASK), AndWord(virtAddr, Not(PGTB_LG_PG_MASK))) ==
            AlignDown(desc, LARGE_PAGE) + virtAddr % LARGE_PAGE
  {
    assert Pow2(16) == LARGE_PAGE by { PowersOfTwo(); }
    LargeMask(desc);
    LargeMask(virtAddr);
    OrIsAdd(AlignDown(desc, LARGE_PAGE), virtAddr % LARGE_PAGE, 16);
  }

  lemma SmallAddr(desc: Word, virtAddr: Word)
    ensures OrWord(AndWord(desc, PGTB_SM_PG_MASK), AndWord(virtAddr, Not(PGTB_SM_PG_MASK))) ==
            AlignDown(desc, PAGE) + virtAddr % PAGE
  {
    assert Pow2(12) == PAGE by { PowersOfTwo(); }
    SmallMask(desc);
    SmallMask(virtAddr);
    OrIsAdd(AlignDown(desc, PAGE), virtAddr % PAGE, 12);
  }

  /** `(virt_addr >> PGTB_IDX_SHIFT) & PGTB_IDX_MASK` */
  lemma IndexIsPage(virtAddr: Word)
    ensures Shr(virtAddr, 12) < WORD_LIMIT
    ensures AndWord(Shr(virtAddr, 12), PGTB_IDX_MASK) == PageIndex(virtAddr)
  {
    ShrIsDiv(virtAddr, 12);
    PowersOfTwo();
    LowMasks(virtAddr / 0x1000);
  }

  class Mmu {
    const mem: array<Word>
    var ttbr0: Word
    var ttbr1: Word
    var ttbcr: Word
    var sctlr: Word

    predicate Shape() {
      mem.Length == MEM_WORDS
    }

    function Memory(): Mem
      requires Shape()
      reads mem
    {
      mem[..]
    }

    /** `armv7_mmu_is_enabled` */
    predicate Enabled()
      reads this
      ensures Enabled() <==> sctlr % 2 == 1
    {
      assert Pow2(1) == 2;
      AndLowMask(sctlr, 1);
      And(sctlr, 1) != 0
    }

    /** `armv7_mmu_get_pg_div` */
    function PgDiv(): (n: nat)
      reads this
      ensures n == ttbcr % 8
    {
      AndBound(ttbcr, 7);
      assert Pow2(3) == 8;
      AndLowMask(ttbcr, 3);
      And(ttbcr, 7)
    }

    function Registers(): (r: Regs)
      reads this
      ensures ValidRegs(r)
    {
      Regs(ttbr0, ttbr1, PgDiv())
    }

    function Load(a: int): Word
      requires Shape() && WordAddr(a)
      reads mem
    {
      mem[a / 4]
    }

    method Store(a: int, w: Word)
      requires Shape() && WordAddr(a)
      modifies mem
      ensures Memory() == Write(old(Memory()), a, w)
    {
      mem[a / 4] := w;
    }

    constructor (ttbr0: Word, ttbr1: Word, ttbcr: Word, sctlr: Word)
      ensures Shape() && fresh(mem)
      ensures this.ttbr0 == ttbr0 && this.ttbr1 == ttbr1 && this.ttbcr == ttbcr && this.sctlr == sctlr
    {
      this.ttbr0, this.ttbr1, this.ttbcr, this.sctlr := ttbr0, ttbr1, ttbcr, sctlr;
      mem := new Word[MEM_WORDS];
    }

    // ----- directories

    method GetKernPgd() returns (ret: Word)
      ensures ret == if Enabled() then KernDir(Registers()) else 0
    {
      ret := 0;
      if Enabled() {
        DirectoryMask(ttbr1);
        ret := AndWord(ttbr1, TTBR_MASK);
      }
    }

    method GetUserPgd() returns (ret: Word)
      ensures ret == if Enabled() then UserDir(Registers()) else 0
    {
      ret := 0;
      if Enabled() {
        var pgDiv := PgDiv();
        UserMaskMeaning(ttbr0, pgDiv);
        ret := AndWord(ttbr0, UserMask(pgDiv));
      }
    }

    /** `armv7_mmu_set_kern_pgd`; the flags never disturb the 16 KiB aligned address. */
    method SetKernPgd(pgdAddr: Word, flags: Byte) returns (ret: Errno)
      modifies this`ttbr1
      ensures ret == if pgdAddr % DIRECTORY == 0 then ESUCC else EALIGN
      ensures ret == ESUCC ==> KernDir(Registers()) == pgdAddr && ttbr1 % DIRECTORY == flags
      ensures ret != ESUCC ==> ttbr1 == old(ttbr1)
    {
      ret := ESUCC;
      assert Pow2(14) == DIRECTORY by { PowersOfTwo(); }
      AndLowMask(pgdAddr, 14);
      if And(pgdAddr, DIRECTORY - 1) == 0 {
        OrIsAdd(pgdAddr, flags, 14);
        AddedOffset(pgdAddr, flags, DIRECTORY);
        ttbr1 := OrWord(pgdAddr, flags);
      } else {
        ret := EALIGN;
      }
    }

    /** `armv7_mmu_set_user_pgd`. The alignment shrinks to 128 bytes for N = 7, and a flag of 128
        or more then reaches the address: the directory read back is the one that was set exactly
        when the flags are below the alignment or that address bit was set anyway. */
    method SetUserPgd(pgdAddr: Word, flags: Byte) returns (ret: Errno)
      modifies this`ttbr0
      ensures ret == if pgdAddr % (4 * LowSlots(PgDiv())) == 0 then ESUCC else EALIGN
      ensures ret == ESUCC ==> (UserDir(Registers()) == pgdAddr <==>
                                flags < 4 * LowSlots(PgDiv()) || pgdAddr % 256 == 128)
      ensures ttbr0 == if ret == ESUCC then Or(pgdAddr, flags) else old(ttbr0)
    {
      ret := ESUCC;
      var pgDiv := PgDiv();
      LowSlotsTable(pgDiv);
      AndLowMask(pgdAddr, 14 - pgDiv);
      if And(pgdAddr, Pow2(14 - pgDiv) - 1) == 0 {
        FlaggedDir(pgdAddr, flags, pgDiv);
        ttbr0 := OrWord(pgdAddr, flags);
      } else {
        ret := EALIGN;
      }
    }

    /** The directory that serves `virtAddr`. */
    method DirectoryOf(virtAddr: Word) returns (dir: Word)
      requires Enabled()
      ensures dir + 4 * Slot(virtAddr) == SlotAddr(Registers(), Slot(virtAddr))
    {
      HigherHalfIsTopBits(virtAddr, PgDiv());
      if IsHigherHalf(virtAddr, PgDiv()) {
        dir := GetKernPgd();
      } else {
        dir := GetUserPgd();
      }
    }

    // ----- translation

    /** Where the CPU finds the byte at `va`: through the tables, 0 if they do not map it; at `va`
        itself while the MMU is off. */
    function Translated(va: Word): Word
      requires Shape()
      reads this, mem
    {
      if Enabled() then Walk(Registers(), Memory(), va).GetOr(0) else va
    }

    /** Off, an address is its own translation; a mapped one goes where the walk leads, any other
        to 0. */
    lemma TranslatedMeaning(va: Word)
      requires Shape()
      ensures !Enabled() ==> Translated(va) == va
      ensures Enabled() && Walk(Registers(), Memory(), va) == None ==> Translated(va) == 0
      ensures Enabled() ==> forall p: Word :: Walk(Registers(), Memory(), va) == Some(p) ==> Translated(va) == p
    {
    }

    /** `armv7_mmu_virt_to_phy` */
    method VirtToPhy(virtAddr: Word) returns (ret: Word)
      requires Shape()
      ensures ret == Translated(virtAddr)
    {
      ret := 0;
      if Enabled() {
        var dir := DirectoryOf(virtAddr);
        var desc := Load(dir + 4 * Slot(virtAddr));
        LowMasks(desc);
        var ty := AndWord(desc, TYPE_MASK);
        if ty == PgdSection.Code() {
          SectionAddr(desc, virtAddr);
          ret := OrWord(AndWord(desc, PGD_SECT_MASK), AndWord(virtAddr, Not(PGD_SECT_MASK)));
        } else if ty == PgdTable.Code() {
          TableMask(desc);
          var pgTb := AndWord(desc, PGD_TABLE_MASK);
          IndexIsPage(virtAddr);
          var index := AndWord(Shr(virtAddr, 12), PGTB_IDX_MASK);
          ret := LeafAddr(Load(EntryAddr(pgTb, index)), virtAddr);
        }
      } else {
        ret := virtAddr;
      }
    }

    /** The second level of `armv7_mmu_virt_to_phy`. */
    method LeafAddr(desc: Word, virtAddr: Word) returns (ret: Word)
      ensures ret == Leaf(DecodeL2(desc), virtAddr).GetOr(0)
    {
      ret := 0;
      LowMasks(desc);
      var ty := AndWord(desc, TYPE_MASK);
      if ty == PgtbLargePg.Code() {
        LargeAddr(desc, virtAddr);
        ret := OrWord(AndWord(desc, PGTB_LG_PG_MASK), AndWord(virtAddr, Not(PGTB_LG_PG_MASK)));
      } else if ty == PgtbSmallPg.Code() {
        SmallAddr(desc, virtAddr);
        ret := OrWord(AndWord(desc, PGTB_SM_PG_MASK), AndWord(virtAddr, Not(PGTB_SM_PG_MASK)));
      }
    }

    // ----- writing entries

    /** `create_pgd_entry` */
    method CreatePgdEntry(pgdAddr: Word, entry: Option<PgdEntry>) returns (ret: Errno)
      requires Shape() && (entry.Some? ==> WordAddr(pgdAddr + 4 * Slot(entry.value.virtAddr)))
      modifies mem
      ensures ret == if entry.Some? then ESUCC else EINVAL
      ensures Memory() == if entry.Some? then
                            Write(old(Memory()), pgdAddr + 4 * Slot(entry.value.virtAddr), PgdWord(entry.value))
                          else old(Memory())
    {
      ret := ESUCC;
      if entry.Some? {
        var e := entry.value;
        SlotIsShift(e.virtAddr);
        var index := Shr(e.virtAddr, 20);
        var wrEnt: Word := 0;
        match e.ty {
          case PgdSection =>
            wrEnt := AndWord(e.phyAddr, PGD_SECT_MASK);
            wrEnt := OrWord(wrEnt, e.accPerm * 0x400);
          case PgdTable =>
            wrEnt := AndWord(e.phyAddr, PGD_TABLE_MASK);
          case _ =>
        }
        Store(pgdAddr + 4 * index, OrWord(OrWord(OrWord(wrEnt, e.domain * 32), e.flags), e.ty.Code()));
      } else {
        ret := EINVAL;
      }
    }

    /** `create_pgtb_entry` */
    method CreatePgtbEntry(pgtbAddr: Word, entry: Option<PgtbEntry>) returns (ret: Errno)
      requires Shape() && (entry.Some? ==> WordAddr(pgtbAddr + 4 * PageIndex(entry.value.virtAddr)))
      modifies mem
      ensures ret == if entry.Some? then ESUCC else EINVAL
      ensures Memory() == if entry.Some? then
                            Write(old(Memory()), pgtbAddr + 4 * PageIndex(entry.value.virtAddr), PgtbWord(entry.value))
                          else old(Memory())
    {
      ret := ESUCC;
      if entry.Some? {
        var e := entry.value;
        IndexIsPage(e.virtAddr);
        var index := AndWord(Shr(e.virtAddr, 12), PGTB_IDX_MASK);
        var wrEnt := e.phyAddr;
        if e.ty.PgtbLargePg? {
          wrEnt := AndWord(wrEnt, PGTB_LG_PG_MASK);
        } else if e.ty.PgtbSmallPg? {
          wrEnt := AndWord(wrEnt, PGTB_SM_PG_MASK);
        }
        Store(pgtbAddr + 4 * index, OrWord(OrWord(OrWord(wrEnt, e.accPerm * 16), e.flags), e.ty.Code()));
      } else {
        ret := EINVAL;
      }
    }

    /** `get_pgd_entry`; `hasOut` says whether there is a structure to fill in. */
    method GetPgdEntry(pgdAddr: Word, virtAddr: Word, hasOut: bool) returns (ret: Errno, out: Option<PgdEntry>)
      requires Shape() && (hasOut ==> WordAddr(pgdAddr + 4 * Slot(virtAddr)))
      ensures !hasOut ==> ret == EINVAL && out == None
      ensures hasOut ==> out == Unpack(Load(pgdAddr + 4 * Slot(virtAddr)), virtAddr)
      ensures hasOut ==> ret == if out.Some? then ESUCC else ENOTFND
    {
      ret, out := ESUCC, None;
      if hasOut {
        SlotIsShift(virtAddr);
        var desc := Load(pgdAddr + 4 * Shr(virtAddr, 20));
        var ty := AndWord(desc, TYPE_MASK);
        DomainFits(desc);
        PermFits(desc);
        if ty == PgdSection.Code() {
          out := Some(PgdEntry(AndWord(desc, PGD_SECT_MASK), virtAddr, AndWord(desc, PGD_DOMAIN_MASK) / 32,
                               AndWord(desc, PGD_AP_MASK) / 0x400, PgdSection, AndWord(desc, SECT_FLAG_MASK)));
        } else if ty == PgdTable.Code() {
          out := Some(PgdEntry(AndWord(desc, PGD_TABLE_MASK), virtAddr, AndWord(desc, PGD_DOMAIN_MASK) / 32,
                               0, PgdTable, AndWord(desc, TABLE_FLAG_MASK)));
        } else {
          ret := ENOTFND;
        }
      } else {
        ret := EINVAL;
      }
    }

    /** `armv7_mmu_map_pgd` */
    method MapPgd(pgdEnt: Option<PgdEntry>) returns (ret: Errno)
      requires Shape()
      modifies mem
      ensures ret == if pgdEnt.None? then EINVAL
                     else if pgdEnt.value.ty.PgdSuperSection? then ENOTSUPP
                     else if !Enabled() then ENOTENB
                     else ESUCC
      ensures Memory() == if ret == ESUCC then
                            Write(old(Memory()), SlotAddr(Registers(), Slot(pgdEnt.value.virtAddr)), PgdWord(pgdEnt.value))
                          else old(Memory())
    {
      if pgdEnt.Some? {
        if !pgdEnt.value.ty.PgdSuperSection? {
          if Enabled() {
            var pgdAddr := DirectoryOf(pgdEnt.value.virtAddr);
            ret := CreatePgdEntry(pgdAddr, pgdEnt);
          } else {
            ret := ENOTENB;
          }
        } else {
          ret := ENOTSUPP;
        }
      } else {
        ret := EINVAL;
      }
    }

    /** `armv7_mmu_map_new_pgd` */
    method MapNewPgd(pgdAddr: Word, pgdEnt: Option<PgdEntry>) returns (ret: Errno)
      requires Shape() && (pgdEnt.Some? ==> WordAddr(pgdAddr + 4 * Slot(pgdEnt.value.virtAddr)))
      modifies mem
      ensures ret == if pgdEnt.None? then EINVAL else if pgdEnt.value.ty.PgdSuperSection? then ENOTSUPP else ESUCC
      ensures Memory() == if ret == ESUCC then
                            Write(old(Memory()), pgdAddr + 4 * Slot(pgdEnt.value.virtAddr), PgdWord(pgdEnt.value))
                          else old(Memory())
    {
      if pgdEnt.Some? {
        if !pgdEnt.value.ty.PgdSuperSection? {
          ret := CreatePgdEntry(pgdAddr, pgdEnt);
        } else {
          ret := ENOTSUPP;
        }
      } else {
        ret := EINVAL;
      }
    }

    /** The part of `armv7_mmu_map_pgtb` that looks for the table and writes to it. */
    method MapInDirectory(pgdAddr: Word, e: PgtbEntry) returns (ret: Errno)
      requires Shape() && WordAddr(pgdAddr + 4 * Slot(e.virtAddr))
      modifies mem
      ensures var d := old(DecodeL1(Load(pgdAddr + 4 * Slot(e.virtAddr))));
              && ret == (if d.L1Table? then ESUCC else ENOTFND)
              && Memory() == if d.L1Table? then Write(old(Memory()), EntryAddr(d.base, PageIndex(e.virtAddr)), PgtbWord(e))
                             else old(Memory())
    {
      var out;
      ret, out := GetPgdEntry(pgdAddr, e.virtAddr, true);
      UnpackIsDecode(Load(pgdAddr + 4 * Slot(e.virtAddr)), e.virtAddr);
      if ret == ESUCC {
        if out.value.ty.PgdTable? {
          ghost var a := EntryAddr(out.value.phyAddr, PageIndex(e.virtAddr));
          ret := CreatePgtbEntry(out.value.phyAddr, Some(e));
        } else {
          ret := ENOTFND;
        }
      }
    }

    /** `armv7_mmu_map_pgtb` */
    method MapPgtb(pgtbEnt: Option<PgtbEntry>) returns (ret: Errno)
      requires Shape()
      modifies mem
      ensures ret == if pgtbEnt.None? then EINVAL
                     else if !Enabled() then ENOTENB
                     else if pgtbEnt.value.ty.PgtbLargePg? then ENOTSUPP
                     else if !Descriptor(Registers(), old(Memory()), Slot(pgtbEnt.value.virtAddr)).L1Table? then ENOTFND
                     else ESUCC
      ensures Memory() == if ret == ESUCC then
                            Write(old(Memory()),
                                  EntryAddr(Descriptor(Registers(), old(Memory()), Slot(pgtbEnt.value.virtAddr)).base,
                                            PageIndex(pgtbEnt.value.virtAddr)),
                                  PgtbWord(pgtbEnt.value))
                          else old(Memory())
    {
      if pgtbEnt.Some? {
        if Enabled() {
          if !pgtbEnt.value.ty.PgtbLargePg? {
            var pgdAddr := DirectoryOf(pgtbEnt.value.virtAddr);
            ret := MapInDirectory(pgdAddr, pgtbEnt.value);
          } else {
            ret := ENOTSUPP;
          }
        } else {
          ret := ENOTENB;
        }
      } else {
        ret := EINVAL;
      }
    }

    /** `armv7_mmu_map_new_pgtb` */
    method MapNewPgtb(pgtbAddr: Word, pgtbEnt: Option<PgtbEntry>) returns (ret: Errno)
      requires Shape() && (pgtbEnt.Some? ==> WordAddr(pgtbAddr + 4 * PageIndex(pgtbEnt.value.virtAddr)))
      modifies mem
      ensures ret == if pgtbEnt.None? then EINVAL else if pgtbEnt.value.ty.PgtbLargePg? then ENOTSUPP else ESUCC
      ensures Memory() == if ret == ESUCC then
                            Write(old(Memory()), pgtbAddr + 4 * PageIndex(pgtbEnt.value.virtAddr), PgtbWord(pgtbEnt.value))
                          else old(Memory())
    {
      if pgtbEnt.Some? {
        if !pgtbEnt.value.ty.PgtbLargePg? {
          ret := CreatePgtbEntry(pgtbAddr, pgtbEnt);
        } else {
          ret := ENOTSUPP;
        }
      } else {
        ret := EINVAL;
      }
    }
  }

  /** `virt_addr >> PGD_IDX_SHIFT` */
  lemma SlotIsShift(virtAddr: Word)
    ensures Shr(virtAddr, 20) == Slot(virtAddr)
  {
    ShrIsDiv(virtAddr, 20);
    PowersOfTwo();
  }

  /** `get_pgd_entry` finds an entry where the walk finds one, with the same type and base. */
  lemma UnpackIsDecode(w: Word, virtAddr: Word)
    ensures Unpack(w, virtAddr).Some? <==> !DecodeL1(w).L1Fault?
    ensures Unpack(w, virtAddr).Some? ==>
              && Unpack(w, virtAddr).value.phyAddr == DecodeL1(w).base
              && (Unpack(w, virtAddr).value.ty == if DecodeL1(w).L1Table? then PgdTable else PgdSection)
  {
    LowMasks(w);
    SectMask(w);
    TableMask(w);
  }

  lemma AddedOffset(base: nat, offset: nat, unit: nat)
    requires unit > 0 && base % unit == 0 && offset < unit
    ensures (base + offset) % unit == offset && base + offset - (base + offset) % unit == base
  {
    var q := base / unit;
    assert base + offset == q * unit + offset;
    DivModUnique(base + offset, unit, q, offset);
  }

  /** Only for N = 7 can a flag byte reach the address; bit 7 is then harmless if already set. */
  lemma FlaggedDir(pgdAddr: Word, flags: Byte, n: nat)
    requires n < 8 && pgdAddr % (4 * LowSlots(n)) == 0
    ensures AlignDown(OrWord(pgdAddr, flags), 4 * LowSlots(n)) == pgdAddr <==>
            flags < 4 * LowSlots(n) || pgdAddr % 256 == 128
  {
    var unit := 4 * LowSlots(n);
    LowSlotsTable(n);
    if flags < unit {
      OrIsAdd(pgdAddr, flags, 14 - n);
      AddedOffset(pgdAddr, flags, unit);
    } else {
      assert n == 7 && unit == 128 == Pow2(7);
      FlagBitSeven(pgdAddr, flags);
    }
  }

  lemma FlagBitSeven(pgdAddr: Word, flags: Byte)
    requires pgdAddr % 128 == 0 && flags >= 128
    ensures AlignDown(OrWord(pgdAddr, flags), 128) == pgdAddr <==> pgdAddr % 256 == 128
  {
    hide Or;
    var q := pgdAddr / 128;
    assert pgdAddr == 128 * q;
    SevenBits(pgdAddr, q, 0);
    SevenBits(flags, 1, flags - 128);
    OrShr(pgdAddr, flags, 7);
    AlignDownIsShr(OrWord(pgdAddr, flags), 7);
    OrOne(q);
  }

  lemma SevenBits(x: nat, q: nat, r: nat)
    requires x == 128 * q + r && r < 128
    ensures Pow2(7) == 128 && Shr(x, 7) == q
  {
    assert Pow2(8) == 256 by { PowersOfTwo(); }
    ShrIsDiv(x, 7);
  }
}
