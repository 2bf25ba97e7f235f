/** The arithmetic of the TTBR0/TTBR1 split in armv7_arch_mmu.c, for every N, and the choice of a
    page table inside a contiguous region by `arch_mmu_create_new_entry`.
 */
module MmuSplit {
  import opened Bits
  import opened Types
  import opened MmuWalk
  import opened Descriptors
  import opened Armv7Mmu
  import opened ArchMmu

  const PGD_ENTRY_CNT := 4096
  const PGD_ENTRY_SZ := 4
  const PGTB_SZ := 0x400

  /** `arch_mmu_get_kern_pgtb_reg_sz` */
  function KernPgtbRegSz(n: nat): nat
    requires n < 8
  {
    LowSlotsTable(n);
    if n > 0 then (PGD_ENTRY_CNT - Pow2(32 - (n + 20))) * PGTB_SZ else PGD_ENTRY_CNT * PGTB_SZ
  }

  /** `arch_mmu_get_user_pgtb_reg_sz` */
  function UserPgtbRegSz(n: nat): nat
    requires n < 8
  {
    if n > 0 then Pow2(32 - (n + 20)) * PGTB_SZ else PGD_ENTRY_CNT * PGTB_SZ
  }

  /** `arch_mmu_get_kern_vaddr` */
  function KernVaddr(n: nat): Word
    requires n < 8
  {
    LowSlotsTable(n);
    if n > 0 then Pow2(32 - n) else 0
  }

  /** `arch_mmu_get_user_pgd_sz` */
  function UserPgdSz(n: nat): nat
    requires n < 8
  {
    if n > 0 then Pow2(32 - (n + 20)) * PGD_ENTRY_SZ else PGD_ENTRY_CNT * PGD_ENTRY_SZ
  }

  /** `arch_mmu_get_user_pgd_alignment` */
  function UserPgdAlignment(n: nat): nat
    requires n < 8
  {
    Pow2(14 - n)
  }

  /** The user directory is aligned to its own size, and every low address indexes inside it. */
  lemma UserPgdHoldsLowHalf(n: nat, va: Word)
    requires n < 8
    ensures UserPgdSz(n) == UserPgdAlignment(n)
    ensures !IsHigherHalf(va, n) <==> PGD_ENTRY_SZ * Slot(va) < UserPgdSz(n)
    ensures !IsHigherHalf(va, n) <==> n == 0 || va < KernVaddr(n)
  {
    LowSlotsTable(n);
    HigherHalfIsTopBits(va, n);
    PowersOfTwo();
  }

  /** Split in two, the table regions of user and kernel space total 4 MiB. */
  lemma TableRegionsTotal(n: nat)
    requires n < 8
    ensures n > 0 ==> UserPgtbRegSz(n) + KernPgtbRegSz(n) == 0x40_0000
    ensures n == 0 ==> UserPgtbRegSz(n) == KernPgtbRegSz(n) == 0x40_0000
    ensures UserPgtbRegSz(n) == PGTB_SZ * LowSlots(n)
  {
    LowSlotsTable(n);
  }

  // ----- tables in a contiguous region

  /** The index that `arch_mmu_create_new_entry` computes: slots count from the base of the half
      they are in. */
  function NewIndex(n: nat, va: Word): (i: nat)
    requires n < 8
    ensures i < PGD_ENTRY_CNT
  {
    if va >= KernVaddr(n) then Slot(va - KernVaddr(n)) else Slot(va)
  }

  function IndexCount(n: nat, high: bool): (count: nat)
    requires n < 8
    ensures count <= PGD_ENTRY_CNT
  {
    LowSlotsTable(n);
    if n == 0 then PGD_ENTRY_CNT else if high then PGD_ENTRY_CNT - LowSlots(n) else LowSlots(n)
  }

  /** Within one half, indexes are in range and tell the 1 MiB slots apart. */
  lemma NewIndexMeaning(n: nat, va: Word)
    requires n < 8
    ensures NewIndex(n, va) < IndexCount(n, IsHigherHalf(va, n))
    ensures NewIndex(n, va) == if IsHigherHalf(va, n) then Slot(va) - LowSlots(n) else Slot(va)
  {
    LowSlotsTable(n);
    HigherHalfIsTopBits(va, n);
    if IsHigherHalf(va, n) {
      SlotDifference(va, LowSlots(n));
    }
  }

  lemma SlotDifference(va: Word, k: nat)
    requires SECTION * k <= va
    ensures (va - SECTION * k) / SECTION == va / SECTION - k
  {
  }

  /** `pg_base | (index << PG_IDX_SHIFT)` */
  function NewTable(pgBase: Word, index: nat): (t: Word)
    requires index < PGD_ENTRY_CNT
  {
    ShiftedIndex(index);
    OrWord(pgBase, Shl(index, 10))
  }

  /** Number of low bits of the table number that one half uses. */
  function IndexBits(n: nat, high: bool): nat
    requires n < 8
  {
    if n == 0 then 12 else if high then (if n == 1 then 11 else 12) else 12 - n
  }

  /** All slots of a half get different tables exactly when the region base is aligned to the
      region size rounded up to a power of two; the tables then lie inside the region. */
  lemma NewTablesDistinct(pgBase: Word, n: nat, high: bool)
    requires n < 8 && pgBase % PGTB_SZ == 0
    ensures (pgBase / PGTB_SZ) % Pow2(IndexBits(n, high)) == 0 <==>
            forall i, j :: 0 <= i < j < IndexCount(n, high) ==> NewTable(pgBase, i) != NewTable(pgBase, j)
    ensures (pgBase / PGTB_SZ) % Pow2(IndexBits(n, high)) == 0 ==>
              forall i :: 0 <= i < IndexCount(n, high) ==> NewTable(pgBase, i) == pgBase + PGTB_SZ * i
  {
    var k := IndexBits(n, high);
    var count := IndexCount(n, high);
    IndexBitsFit(n, high);
    assert Pow2(10) == PGTB_SZ by { PowersOfTwo(); }
    OrFamily(pgBase, 10, k, count);
    forall i | 0 <= i < count
      ensures Shl(i, 10) == PGTB_SZ * i && NewTable(pgBase, i) == Or(pgBase, Shl(i, 10))
    {
      ShiftedIndex(i);
    }
    if forall i, j :: 0 <= i < j < count ==> NewTable(pgBase, i) != NewTable(pgBase, j) {
      forall i, j | 0 <= i < j < count ensures Or(pgBase, Shl(i, 10)) != Or(pgBase, Shl(j, 10)) {
        assert NewTable(pgBase, i) != NewTable(pgBase, j);
      }
    }
  }

  lemma IndexBitsFit(n: nat, high: bool)
    requires n < 8
    ensures IndexBits(n, high) > 0
    ensures Pow2(IndexBits(n, high) - 1) < IndexCount(n, high) <= Pow2(IndexBits(n, high))
  {
    LowSlotsTable(n);
    assert Pow2(12) == 4096 && Pow2(11) == 2048 by { PowersOfTwo(); }
    if n > 0 && !high {
      assert Pow2(12 - n) == 2 * Pow2(11 - n);
    }
  }

  /** The 4096-byte alignment that `arch_mmu_get_pgtb_alignment` asks for is not enough: with the
      2G/2G split, two kernel slots get the same table. */
  lemma PageAlignmentIsNotEnough()
    ensures var pgBase: Word := 0x6010_1000;
            && pgBase % 4096 == 0
            && NewIndex(1, 0x8000_0000) == 0 && NewIndex(1, 0x8040_0000) == 4
            && NewTable(pgBase, 0) == NewTable(pgBase, 4)
  {
    LowSlotsTable(1);
    SetBitAbsorbed();
    ShiftedIndex(4);
    ShiftedIndex(0);
    OrZero(0x6010_1000);
    assert KernVaddr(1) == 0x8000_0000;
  }

  lemma SetBitAbsorbed()
    ensures Or(0x6010_1000, 0x1000) == 0x6010_1000
  {
    assert Pow2(12) == 0x1000 by { PowersOfTwo(); }
    ShlIsTimes(0x6_0101, 12);
    ShlIsTimes(1, 12);
    OrSetBit(0x6_0101, 0);
    OrShl(0x6_0101, 1, 12);
  }

  /** Where `arch_mmu_create_new_entry` puts the page descriptor of `va`. */
  function NewEntryAddr(pgBase: Word, n: nat, va: Word): int
    requires n < 8
  {
    NewTable(pgBase, NewIndex(n, va)) + 4 * PageIndex(va)
  }

  /** In an aligned region no two pages of one half share a descriptor. */
  lemma NewEntriesDistinct(pgBase: Word, n: nat, va: Word, vb: Word)
    requires n < 8 && pgBase % PGTB_SZ == 0 && IsHigherHalf(va, n) == IsHigherHalf(vb, n)
    requires (pgBase / PGTB_SZ) % Pow2(IndexBits(n, IsHigherHalf(va, n))) == 0
    ensures NewEntryAddr(pgBase, n, va) == NewEntryAddr(pgBase, n, vb) <==> va / PAGE == vb / PAGE
  {
    var i, j := NewIndex(n, va), NewIndex(n, vb);
    NewIndexMeaning(n, va);
    NewIndexMeaning(n, vb);
    NewTablesDistinct(pgBase, n, IsHigherHalf(va, n));
    NewTableAligned(pgBase, i);
    NewTableAligned(pgBase, j);
    SamePage(va, vb);
    if va / PAGE != vb / PAGE {
      assert i != j ==> NewTable(pgBase, i) != NewTable(pgBase, j);
      TablesApart(NewTable(pgBase, i), NewTable(pgBase, j), PageIndex(va), PageIndex(vb));
    }
  }

  /** Where the descriptor goes. */
  function NewTarget(n: nat, pgBase: Word, e: MmuEntry): int
    requires n < 8
  {
    if IsDir(e.ty) then pgBase + 4 * Slot(e.virtAddr) else NewEntryAddr(pgBase, n, e.virtAddr)
  }

  function NewWord(e: MmuEntry): Word {
    if IsDir(e.ty) then PgdWord(ToPgd(e)) else PgtbWord(ToPgtb(e))
  }

  /** `arch_mmu_create_new_entry` */
  method CreateNewEntry(mmu: Mmu, pgBase: Word, entry: MmuEntry) returns (ret: Errno)
    requires mmu.Shape() && WordAddr(NewTarget(mmu.PgDiv(), pgBase, entry))
    modifies mmu.mem
    ensures ret == ESUCC
    ensures mmu.Memory() == Write(old(mmu.Memory()), NewTarget(mmu.PgDiv(), pgBase, entry), NewWord(entry))
    ensures entry.ty == PG_DIR ==>
              Read(mmu.Memory(), pgBase + 4 * Slot(entry.virtAddr)) ==
              AlignDown(entry.phyAddr, TABLE) + 32 * AccToDomain(entry.accFlags) + 1
    ensures entry.ty == PG_TAB ==>
              Read(mmu.Memory(), NewEntryAddr(pgBase, mmu.PgDiv(), entry.virtAddr)) ==
              AlignDown(entry.phyAddr, PAGE) + 16 * AccToArmv7(entry.accFlags) + 2
  {
    if entry.ty == PG_TAB || entry.ty == PG_DIR { EntryFields(entry); }
    if IsDir(entry.ty) {
      ret := mmu.MapNewPgd(pgBase, Some(ToPgd(entry)));
    } else {
      var index := FindIndex(entry.virtAddr, mmu.PgDiv());
      ret := mmu.MapNewPgtb(NewTable(pgBase, index), Some(ToPgtb(entry)));
    }
  }

  /** The choice of the index: the address counts from the start of its half. */
  method FindIndex(virtAddr: Word, n: nat) returns (index: nat)
    requires n < 8
    ensures index == NewIndex(n, virtAddr)
  {
    var kvaddr := KernVaddr(n);
    if virtAddr >= kvaddr {
      SlotIsShift(virtAddr - kvaddr);
      index := Shr(virtAddr - kvaddr, 20);
    } else {
      SlotIsShift(virtAddr);
      index := Shr(virtAddr, 20);
    }
  }

  lemma NewTableAligned(pgBase: Word, index: nat)
    requires index < PGD_ENTRY_CNT && pgBase % PGTB_SZ == 0
    ensures NewTable(pgBase, index) % TABLE == 0
  {
    ShiftedIndex(index);
    AlignedOr(pgBase, Shl(index, 10));
  }

  lemma ShiftedIndex(index: nat)
    ensures Shl(index, 10) == index * 0x400
  {
    ShlIsTimes(index, 10);
    PowersOfTwo();
  }

  lemma AlignedOr(a: nat, b: nat)
    requires a % 0x400 == 0 && b % 0x400 == 0
    ensures Or(a, b) % 0x400 == 0
  {
    assert Pow2(10) == 0x400 by { PowersOfTwo(); }
    OrMod(a, b, 10);
    OrZero(0);
  }
}
