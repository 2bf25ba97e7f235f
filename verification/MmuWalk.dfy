/** Address translation over the two-level page tables, as arithmetic on physical memory.

    Short-descriptor format of the ARM Architecture Reference Manual, ARMv7-A edition, section
    B3.5: descriptors in B3.5.1, the TTBR0/TTBR1 split in B3.5.4. Where the kernel decodes fewer
    descriptor types than the architecture defines, this follows the kernel: a small page is
    only the type 0b10, and type 0b11 means "not mapped" at both levels.
 */
module MmuWalk {
  import opened Bits
  import opened Types

  // ----- physical memory

  const MEM_WORDS := 0x4000_0000

  type Mem = m: seq<Word> | |m| == MEM_WORDS ghost witness seq(MEM_WORDS, i => 0)

  predicate WordAddr(a: int) {
    0 <= a < WORD_LIMIT && a % 4 == 0
  }

  function Read(m: Mem, a: int): Word
    requires WordAddr(a)
  {
    m[a / 4]
  }

  function Write(m: Mem, a: int, w: Word): Mem
    requires WordAddr(a)
  {
    m[a / 4 := w]
  }

  lemma ReadWrite(m: Mem, a: int, w: Word, b: int)
    requires WordAddr(a) && WordAddr(b)
    ensures Read(Write(m, a, w), b) == if a == b then w else Read(m, b)
  {
  }

  // ----- descriptors

  const SECTION := 0x10_0000
  const PAGE := 0x1000
  const LARGE_PAGE := 0x1_0000
  const TABLE := 0x400
  const DIRECTORY := 0x4000
  const SLOTS := 4096

  function AlignDown(x: Word, unit: nat): (y: Word)
    requires unit > 0
    ensures y % unit == 0 && y <= x < y + unit
  {
    AlignDownMultiple(x, unit);
    x - x % unit
  }

  lemma AlignDownMultiple(x: nat, unit: nat)
    requires unit > 0
    ensures (x - x % unit) % unit == 0
  {
    assert x - x % unit == (x / unit) * unit + 0;
    DivModUnique(x - x % unit, unit, x / unit, 0);
  }

  datatype L1 = L1Fault | L1Table(base: Word) | L1Section(base: Word)

  datatype L2 = L2Fault | L2Large(base: Word) | L2Small(base: Word)

  function DecodeL1(w: Word): L1 {
    if w % 4 == 1 then L1Table(AlignDown(w, TABLE))
    else if w % 4 == 2 then L1Section(AlignDown(w, SECTION))
    else L1Fault
  }

  function DecodeL2(w: Word): L2 {
    if w % 4 == 1 then L2Large(AlignDown(w, LARGE_PAGE))
    else if w % 4 == 2 then L2Small(AlignDown(w, PAGE))
    else L2Fault
  }

  // ----- registers and the split

  /** The translation registers: TTBR0, TTBR1 and the split N of TTBCR. */
  datatype Regs = Regs(ttbr0: Word, ttbr1: Word, n: nat)

  /** Number of 1 MiB slots that the user directory serves. */
  function LowSlots(n: nat): nat
    requires n < 8
  {
    Pow2(12 - n)
  }

  lemma LowSlotsTable(n: nat)
    requires n < 8
    ensures LowSlots(n) == [4096, 2048, 1024, 512, 256, 128, 64, 32][n]
    ensures Pow2(14 - n) == 4 * LowSlots(n)
    ensures Pow2(32 - n) == SECTION * LowSlots(n)
  {
    PowersOfTwo();
    assert Pow2(14) == 4 * Pow2(12) && Pow2(13) == 4 * Pow2(11) && Pow2(12) == 4 * Pow2(10);
    assert Pow2(11) == 4 * Pow2(9) && Pow2(10) == 4 * Pow2(8) && Pow2(9) == 4 * Pow2(7);
    assert Pow2(8) == 4 * Pow2(6) && Pow2(7) == 4 * Pow2(5);
    Pow2Add(20, 12 - n);
  }

  lemma LowSlotsBounds(n: nat)
    requires n < 8
    ensures 0 < LowSlots(n) <= SLOTS && (n == 0 ==> LowSlots(n) == SLOTS)
  {
    LowSlotsTable(n);
  }

  /** Slots from here on are served by TTBR1. */
  predicate HighSlot(n: nat, slot: nat)
    requires n < 8
  {
    n > 0 && slot >= LowSlots(n)
  }

  predicate ValidRegs(r: Regs) {
    r.n < 8
  }

  function KernDir(r: Regs): (d: Word)
    ensures d % DIRECTORY == 0
  {
    AlignDown(r.ttbr1, DIRECTORY)
  }

  function UserDir(r: Regs): (d: Word)
    requires ValidRegs(r)
    ensures d % (4 * LowSlots(r.n)) == 0
  {
    AlignDown(r.ttbr0, 4 * LowSlots(r.n))
  }

  lemma MultipleGap(a: nat, b: nat, unit: nat)
    requires unit > 0 && a % unit == 0 && b % unit == 0 && a < b
    ensures a + unit <= b
  {
    var p, q := a / unit, b / unit;
    assert a == p * unit && b == q * unit;
    if q <= p {
      MulMonotonic(q, p, unit);
    }
    MulGap(p, q, unit);
  }

  lemma MultipleOfPart(x: nat, whole: nat, unit: nat, c: nat)
    requires unit > 0 && whole == unit * c && whole > 0 && x % whole == 0
    ensures x % unit == 0
  {
    var q := x / whole;
    assert x == q * whole;
    assert x == (q * c) * unit + 0;
    DivModUnique(x, unit, q * c, 0);
  }

  lemma KernDirAligned(r: Regs)
    requires ValidRegs(r)
    ensures KernDir(r) % (4 * LowSlots(r.n)) == 0
    ensures WORD_LIMIT % (4 * LowSlots(r.n)) == 0
  {
    var unit := 4 * LowSlots(r.n);
    LowSlotsTable(r.n);
    var c := [1, 2, 4, 8, 16, 32, 64, 128][r.n];
    assert DIRECTORY == unit * c;
    MultipleOfPart(KernDir(r), DIRECTORY, unit, c);
    MultipleOfPart(WORD_LIMIT, DIRECTORY, unit, c);
  }

  lemma UserDirFits(r: Regs)
    requires ValidRegs(r)
    ensures UserDir(r) % 4 == 0 && UserDir(r) + 4 * LowSlots(r.n) <= WORD_LIMIT
  {
    LowSlotsBounds(r.n);
    KernDirAligned(r);
    MultipleGap(UserDir(r), WORD_LIMIT, 4 * LowSlots(r.n));
    MultipleOfPart(UserDir(r), 4 * LowSlots(r.n), 4, LowSlots(r.n));
  }

  /** Where the first-level descriptor of a 1 MiB slot lives. */
  function SlotAddr(r: Regs, slot: nat): (a: int)
    requires ValidRegs(r) && slot < SLOTS
    ensures WordAddr(a)
  {
    SlotAddrFits(r, slot);
    if HighSlot(r.n, slot) then KernDir(r) + 4 * slot else UserDir(r) + 4 * slot
  }

  lemma SlotAddrFits(r: Regs, slot: nat)
    requires ValidRegs(r) && slot < SLOTS
    ensures WordAddr(KernDir(r) + 4 * slot)
    ensures !HighSlot(r.n, slot) ==> WordAddr(UserDir(r) + 4 * slot)
  {
    LowSlotsBounds(r.n);
    UserDirFits(r);
    KernDirFits(r);
    WordAddrSum(UserDir(r), slot);
    WordAddrSum(KernDir(r), slot);
  }

  lemma KernDirFits(r: Regs)
    ensures KernDir(r) % 4 == 0 && KernDir(r) + DIRECTORY <= WORD_LIMIT
  {
    MultipleGap(KernDir(r), WORD_LIMIT, DIRECTORY);
    MultipleOfPart(KernDir(r), DIRECTORY, 4, SLOTS);
  }

  lemma WordAddrSum(a: nat, i: nat)
    requires a % 4 == 0
    ensures (a + 4 * i) % 4 == 0
  {
  }

  function Slot(va: Word): (slot: nat)
    ensures slot < SLOTS
  {
    va / SECTION
  }

  function PageIndex(va: Word): (i: nat)
    ensures i < 256
  {
    va / PAGE % 256
  }

  // ----- the walk

  /** The translation of `va` by a second-level descriptor. */
  function Leaf(d: L2, va: Word): Option<Word>
    requires d.L2Large? ==> d.base % LARGE_PAGE == 0
    requires d.L2Small? ==> d.base % PAGE == 0
  {
    match d
    case L2Fault => None
    case L2Large(b) => Some(b + va % LARGE_PAGE)
    case L2Small(b) => Some(b + va % PAGE)
  }

  /** Where the second-level descriptor with index `i` of a table lives. */
  function EntryAddr(table: Word, i: nat): (a: int)
    requires table % TABLE == 0 && i < 256
    ensures WordAddr(a) && table <= a < table + TABLE && a == table + 4 * i
  {
    MultipleGap(table, WORD_LIMIT, TABLE);
    MultipleOfPart(table, TABLE, 4, 256);
    table + 4 * i
  }

  function TableWalk(m: Mem, table: Word, va: Word): Option<Word>
    requires table % TABLE == 0
  {
    Leaf(DecodeL2(Read(m, EntryAddr(table, PageIndex(va)))), va)
  }

  function Descriptor(r: Regs, m: Mem, slot: nat): L1
    requires ValidRegs(r) && slot < SLOTS
  {
    DecodeL1(Read(m, SlotAddr(r, slot)))
  }

  /** The translation of `va` by a first-level descriptor. */
  function Through(d: L1, m: Mem, va: Word): Option<Word>
    requires d.L1Table? ==> d.base % TABLE == 0
    requires d.L1Section? ==> d.base % SECTION == 0
  {
    match d
    case L1Fault => None
    case L1Section(b) => Some(b + va % SECTION)
    case L1Table(t) => TableWalk(m, t, va)
  }

  /** The physical address of `va`, if it is mapped. */
  function Walk(r: Regs, m: Mem, va: Word): Option<Word>
    requires ValidRegs(r)
  {
    Through(Descriptor(r, m, Slot(va)), m, va)
  }

  /** The descriptor of an address, from the registers: the top N bits choose the directory. */
  lemma SlotAddrMeaning(r: Regs, va: Word)
    requires ValidRegs(r)
    ensures SlotAddr(r, Slot(va)) ==
            4 * (va / 0x10_0000)
            + if r.n > 0 && va >= Pow2(32 - r.n) then r.ttbr1 / 0x4000 * 0x4000 else r.ttbr0 / Pow2(14 - r.n) * Pow2(14 - r.n)
  {
    LowSlotsTable(r.n);
    WholeUnits(r.ttbr1, 0x4000);
    WholeUnits(r.ttbr0, Pow2(14 - r.n));
    HighAddr(va, LowSlots(r.n));
  }

  lemma WholeUnits(x: Word, unit: nat)
    requires unit > 0
    ensures AlignDown(x, unit) == x / unit * unit
  {
    assert x == x / unit * unit + x % unit;
  }

  lemma HighAddr(va: Word, k: nat)
    ensures va >= 0x10_0000 * k <==> Slot(va) >= k
  {
  }

  /** What the walk computes, by the bits of the two words that it reads. */
  lemma WalkMeaning(r: Regs, m: Mem, va: Word)
    requires ValidRegs(r)
    ensures var w := Read(m, SlotAddr(r, Slot(va)));
            && (w % 4 == 2 ==> Walk(r, m, va) == Some(w / 0x10_0000 * 0x10_0000 + va % 0x10_0000))
            && (w % 4 == 0 || w % 4 == 3 ==> Walk(r, m, va) == None)
    ensures var w := Read(m, SlotAddr(r, Slot(va)));
            w % 4 == 1 ==>
              var a := w / 0x400 * 0x400 + 4 * (va / 0x1000 % 256);
              && WordAddr(a)
              && (Read(m, a) % 4 == 2 ==> Walk(r, m, va) == Some(Read(m, a) / 0x1000 * 0x1000 + va % 0x1000))
              && (Read(m, a) % 4 == 1 ==> Walk(r, m, va) == Some(Read(m, a) / 0x1_0000 * 0x1_0000 + va % 0x1_0000))
              && (Read(m, a) % 4 == 0 || Read(m, a) % 4 == 3 ==> Walk(r, m, va) == None)
  {
    hide SlotAddr;
    var w := Read(m, SlotAddr(r, Slot(va)));
    WholeUnits(w, SECTION);
    WholeUnits(w, TABLE);
    if w % 4 == 1 {
      var a := EntryAddr(AlignDown(w, TABLE), PageIndex(va));
      WholeUnits(Read(m, a), PAGE);
      WholeUnits(Read(m, a), LARGE_PAGE);
    }
  }

  // ----- separation

  /** The used parts of the two directories do not overlap; one shared directory is fine. */
  predicate DirsApart(r: Regs)
    requires ValidRegs(r)
  {
    r.n == 0 || UserDir(r) <= KernDir(r) || KernDir(r) + DIRECTORY <= UserDir(r)
  }

  /** No first-level descriptor lies inside the table at `t`. */
  ghost predicate ClearOfDirs(r: Regs, t: int)
    requires ValidRegs(r)
  {
    forall s :: 0 <= s < SLOTS ==> !(t <= SlotAddr(r, s) < t + TABLE)
  }

  /** Tables in use are distinct and overlap no directory entry. */
  ghost predicate Separated(r: Regs, m: Mem)
    requires ValidRegs(r)
  {
    && DirsApart(r)
    && (forall s :: 0 <= s < SLOTS && Descriptor(r, m, s).L1Table? ==> ClearOfDirs(r, Descriptor(r, m, s).base))
    && (forall s, t :: 0 <= s < t < SLOTS && Descriptor(r, m, s).L1Table? && Descriptor(r, m, t).L1Table? ==>
                         Descriptor(r, m, s).base != Descriptor(r, m, t).base)
  }

  /** No two slots have the same descriptor. */
  ghost predicate SlotsDistinct(r: Regs)
    requires ValidRegs(r)
  {
    forall s, t :: 0 <= s < t < SLOTS ==> SlotAddr(r, s) != SlotAddr(r, t)
  }

  /** Different slots have different descriptors exactly when the directories do not overlap. */
  lemma SlotAddrInjective(r: Regs)
    requires ValidRegs(r)
    ensures SlotsDistinct(r) <==> DirsApart(r)
  {
    if DirsApart(r) {
      forall s, t | 0 <= s < t < SLOTS ensures SlotAddr(r, s) != SlotAddr(r, t) {
        SlotAddrDistinct(r, s, t);
      }
    } else {
      var s, t := SlotClash(r);
    }
  }

  /** Directories that are apart leave a whole user directory between their bases. */
  lemma DirGap(r: Regs)
    requires ValidRegs(r)
    ensures UserDir(r) < KernDir(r) ==> UserDir(r) + 4 * LowSlots(r.n) <= KernDir(r)
    ensures KernDir(r) < UserDir(r) ==> KernDir(r) + 4 * LowSlots(r.n) <= UserDir(r)
  {
    LowSlotsBounds(r.n);
    KernDirAligned(r);
    if UserDir(r) < KernDir(r) {
      MultipleGap(UserDir(r), KernDir(r), 4 * LowSlots(r.n));
    } else if KernDir(r) < UserDir(r) {
      MultipleGap(KernDir(r), UserDir(r), 4 * LowSlots(r.n));
    }
  }

  lemma SlotAddrDistinct(r: Regs, s: nat, t: nat)
    requires ValidRegs(r) && DirsApart(r) && s < SLOTS && t < SLOTS && s != t
    ensures SlotAddr(r, s) != SlotAddr(r, t)
  {
    LowSlotsBounds(r.n);
    DirGap(r);
  }

  lemma SlotClash(r: Regs) returns (s: nat, t: nat)
    requires ValidRegs(r) && !DirsApart(r)
    ensures s < t < SLOTS && SlotAddr(r, s) == SlotAddr(r, t)
  {
    hide LowSlots, UserDir, KernDir;
    LowSlotsBounds(r.n);
    UserDirFits(r);
    KernDirFits(r);
    DirGap(r);
    s := 0;
    t := (UserDir(r) - KernDir(r)) / 4;
  }

  // ----- what one write changes

  lemma TablesApart(t: Word, u: Word, i: nat, j: nat)
    requires t % TABLE == 0 && u % TABLE == 0 && i < 256 && j < 256
    requires t != u || i != j
    ensures EntryAddr(t, i) != EntryAddr(u, j)
  {
    if t < u {
      MultipleGap(t, u, TABLE);
    } else if u < t {
      MultipleGap(u, t, TABLE);
    }
  }

  lemma SamePage(va: Word, vb: Word)
    ensures va / PAGE == vb / PAGE <==> Slot(va) == Slot(vb) && PageIndex(va) == PageIndex(vb)
  {
    assert va / SECTION == va / PAGE / 256 && vb / SECTION == vb / PAGE / 256;
  }

  /** Descriptors survive a write outside the directories. */
  lemma DescriptorsKept(r: Regs, m: Mem, a: int, w: Word)
    requires ValidRegs(r) && WordAddr(a)
    requires forall s :: 0 <= s < SLOTS ==> SlotAddr(r, s) != a
    ensures forall s :: 0 <= s < SLOTS ==> Descriptor(r, Write(m, a, w), s) == Descriptor(r, m, s)
  {
    forall s | 0 <= s < SLOTS ensures Descriptor(r, Write(m, a, w), s) == Descriptor(r, m, s) {
      ReadWrite(m, a, w, SlotAddr(r, s));
    }
  }

  /** Writing the second-level descriptor that serves `va0` changes the translation of that one
      page, to what the new descriptor says, and of nothing else. */
  lemma TableWrite(r: Regs, m: Mem, va0: Word, w: Word)
    requires ValidRegs(r) && Separated(r, m) && Descriptor(r, m, Slot(va0)).L1Table?
    ensures var m' := Write(m, EntryAddr(Descriptor(r, m, Slot(va0)).base, PageIndex(va0)), w);
            && Separated(r, m')
            && (forall s :: 0 <= s < SLOTS ==> Descriptor(r, m', s) == Descriptor(r, m, s))
            && forall va: Word :: Walk(r, m', va) == if va / PAGE == va0 / PAGE then Leaf(DecodeL2(w), va)
                                                     else Walk(r, m, va)
  {
    var t := Descriptor(r, m, Slot(va0)).base;
    var a := EntryAddr(t, PageIndex(va0));
    var m' := Write(m, a, w);
    assert ClearOfDirs(r, t);
    DescriptorsKept(r, m, a, w);
    forall va: Word
      ensures Walk(r, m', va) == if va / PAGE == va0 / PAGE then Leaf(DecodeL2(w), va) else Walk(r, m, va)
    {
      TableWriteAt(r, m, va0, w, va);
    }
  }

  lemma TableWriteAt(r: Regs, m: Mem, va0: Word, w: Word, va: Word)
    requires ValidRegs(r) && Separated(r, m) && Descriptor(r, m, Slot(va0)).L1Table?
    ensures var m' := Write(m, EntryAddr(Descriptor(r, m, Slot(va0)).base, PageIndex(va0)), w);
            Walk(r, m', va) == if va / PAGE == va0 / PAGE then Leaf(DecodeL2(w), va) else Walk(r, m, va)
  {
    hide DecodeL2, Leaf, SlotAddr, EntryAddr, DirsApart, PageIndex, Read, Write;
    var t := Descriptor(r, m, Slot(va0)).base;
    var a := EntryAddr(t, PageIndex(va0));
    var d := Descriptor(r, m, Slot(va));
    SamePage(va, va0);
    assert ClearOfDirs(r, t);
    ReadWrite(m, a, w, SlotAddr(r, Slot(va)));
    if d.L1Table? {
      var b := EntryAddr(d.base, PageIndex(va));
      ReadWrite(m, a, w, b);
      if Slot(va) != Slot(va0) {
        assert d.base != t;
      }
      if va / PAGE != va0 / PAGE {
        TablesApart(t, d.base, PageIndex(va0), PageIndex(va));
      }
    }
  }

  /** Writing the first-level descriptor of `slot` leaves every address outside that 1 MiB slot
      translating as before. Inside, the new descriptor decides. */
  lemma DirWrite(r: Regs, m: Mem, slot: nat, w: Word)
    requires ValidRegs(r) && Separated(r, m) && slot < SLOTS
    ensures var m' := Write(m, SlotAddr(r, slot), w);
            && Descriptor(r, m', slot) == DecodeL1(w)
            && (forall s :: 0 <= s < SLOTS && s != slot ==> Descriptor(r, m', s) == Descriptor(r, m, s))
            && forall va: Word :: Walk(r, m', va) == if Slot(va) == slot then Through(DecodeL1(w), m', va)
                                                     else Walk(r, m, va)
  {
    var a := SlotAddr(r, slot);
    var m' := Write(m, a, w);
    ReadWrite(m, a, w, a);
    forall s | 0 <= s < SLOTS && s != slot ensures Descriptor(r, m', s) == Descriptor(r, m, s) {
      SlotAddrDistinct(r, slot, s);
      ReadWrite(m, a, w, SlotAddr(r, s));
    }
    forall va: Word | Slot(va) != slot ensures Walk(r, m', va) == Walk(r, m, va) {
      var d := Descriptor(r, m, Slot(va));
      if d.L1Table? {
        assert ClearOfDirs(r, d.base);
        ReadWrite(m, a, w, EntryAddr(d.base, PageIndex(va)));
      }
    }
  }

  /** A fresh table keeps the tables separated; so does removing one. */
  lemma DirWriteSeparated(r: Regs, m: Mem, slot: nat, w: Word)
    requires ValidRegs(r) && Separated(r, m) && slot < SLOTS
    ensures Separated(r, Write(m, SlotAddr(r, slot), w)) <==>
            (DecodeL1(w).L1Table? ==>
               && ClearOfDirs(r, DecodeL1(w).base)
               && forall s :: 0 <= s < SLOTS && s != slot && Descriptor(r, m, s).L1Table? ==>
                                Descriptor(r, m, s).base != DecodeL1(w).base)
  {
    var m' := Write(m, SlotAddr(r, slot), w);
    DirWrite(r, m, slot, w);
    if Separated(r, m') && DecodeL1(w).L1Table? {
      assert Descriptor(r, m', slot).L1Table?;
      forall s | 0 <= s < SLOTS && s != slot && Descriptor(r, m, s).L1Table?
        ensures Descriptor(r, m, s).base != DecodeL1(w).base
      {
        assert Descriptor(r, m', s) == Descriptor(r, m, s);
      }
    }
  }
}
