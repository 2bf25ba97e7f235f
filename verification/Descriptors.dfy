/** How armv7_mmu.c composes and takes apart descriptor words with masks, shifts and `|`. */
module Descriptors {
  import opened Bits
  import opened Types
  import opened MmuWalk

  const PGD_SECT_MASK := 0xFFF0_0000
  const PGD_TABLE_MASK := 0xFFFF_FC00
  const PGTB_LG_PG_MASK := 0xFFFF_0000
  const PGTB_SM_PG_MASK := 0xFFFF_F000
  const TTBR_MASK := 0xFFFF_C000
  const TYPE_MASK := 0x3
  const PGTB_IDX_MASK := 0xFF

  type AccPerm = x: int | 0 <= x < 4

  datatype PgdType = PgdInvalid | PgdTable | PgdSection | PgdSuperSection {
    function Code(): Word {
      match this
      case PgdInvalid => 0
      case PgdTable => 1
      case PgdSection => 2
      case PgdSuperSection => 3
    }
  }

  datatype PgtbType = PgtbInvalid | PgtbLargePg | PgtbSmallPg {
    function Code(): Word {
      match this
      case PgtbInvalid => 0
      case PgtbLargePg => 1
      case PgtbSmallPg => 2
    }
  }

  datatype PgdEntry = PgdEntry(phyAddr: Word, virtAddr: Word, domain: Byte, accPerm: AccPerm, ty: PgdType, flags: Word)

  datatype PgtbEntry = PgtbEntry(phyAddr: Word, virtAddr: Word, accPerm: AccPerm, ty: PgtbType, flags: Word)

  // ----- words

  function OrWord(a: Word, b: Word): Word {
    PowersOfTwo();
    OrBound(a, b, 32);
    Or(a, b)
  }

  lemma {:induction false} AndBound(a: nat, b: nat)
    ensures And(a, b) <= a && And(a, b) <= b
  {
    if a != 0 && b != 0 {
      AndBound(a / 2, b / 2);
    }
  }

  function AndWord(a: Word, b: Word): Word {
    AndBound(a, b);
    And(a, b)
  }

  // The masks of armv7_mmu.h are roundings and remainders.

  lemma SectMask(w: Word)
    ensures AndWord(w, PGD_SECT_MASK) == AlignDown(w, SECTION)
    ensures AndWord(w, Not(PGD_SECT_MASK)) == w % SECTION
  {
    PowersOfTwo();
    AndHighMask(w, 20, 32);
    AndLowMask(w, 20);
  }

  lemma TableMask(w: Word)
    ensures AndWord(w, PGD_TABLE_MASK) == AlignDown(w, TABLE)
  {
    PowersOfTwo();
    AndHighMask(w, 10, 32);
  }

  lemma LargeMask(w: Word)
    ensures AndWord(w, PGTB_LG_PG_MASK) == AlignDown(w, LARGE_PAGE)
    ensures AndWord(w, Not(PGTB_LG_PG_MASK)) == w % LARGE_PAGE
  {
    PowersOfTwo();
    AndHighMask(w, 16, 32);
    AndLowMask(w, 16);
  }

  lemma SmallMask(w: Word)
    ensures AndWord(w, PGTB_SM_PG_MASK) == AlignDown(w, PAGE)
    ensures AndWord(w, Not(PGTB_SM_PG_MASK)) == w % PAGE
  {
    PowersOfTwo();
    AndHighMask(w, 12, 32);
    AndLowMask(w, 12);
  }

  lemma DirectoryMask(w: Word)
    ensures AndWord(w, TTBR_MASK) == AlignDown(w, DIRECTORY)
  {
    PowersOfTwo();
    AndHighMask(w, 14, 32);
  }

  lemma LowMasks(w: Word)
    ensures AndWord(w, TYPE_MASK) == w % 4
    ensures AndWord(w, PGTB_IDX_MASK) == w % 256
  {
    PowersOfTwo();
    AndLowMask(w, 2);
    AndLowMask(w, 8);
  }

  /** Or-ing in bits below 2^k changes neither the rounding to 2^k nor, for multiples of four,
      the type bits. */
  lemma OrLow(x: Word, y: Word, k: nat)
    requires y < Pow2(k)
    ensures AlignDown(OrWord(x, y), Pow2(k)) == AlignDown(x, Pow2(k))
  {
    OrShr(x, y, k);
    assert Shr(y, k) == 0 by {
      ShrIsDiv(y, k);
      SmallMod(y, Pow2(k));
    }
    OrZero(Shr(x, k));
    AlignDownIsShr(x, k);
    AlignDownIsShr(OrWord(x, y), k);
  }

  lemma AlignDownIsShr(x: Word, k: nat)
    ensures AlignDown(x, Pow2(k)) == Shr(x, k) * Pow2(k)
  {
    ShrIsDiv(x, k);
    WholeParts(x, Pow2(k));
  }

  lemma WholeParts(x: nat, p: nat)
    requires p > 0
    ensures x - x % p == x / p * p
  {
    var q, r := x / p, x % p;
    assert x == q * p + r;
  }

  lemma OrType(x: Word, y: Word)
    ensures OrWord(x, y) % 4 == Or(x % 4, y % 4)
    ensures y % 4 == 0 ==> OrWord(x, y) % 4 == x % 4
    ensures x % 4 == 0 ==> OrWord(x, y) % 4 == y % 4
  {
    PowersOfTwo();
    OrMod(x, y, 2);
    OrZero(x % 4);
    OrZero(y % 4);
  }

  lemma OrKeepsType(x: Word, y: Word)
    requires y % 4 == 0
    ensures OrWord(x, y) % 4 == x % 4
  {
    OrType(x, y);
  }

  // ----- composing a descriptor

  /** The word that `create_pgtb_entry` stores. */
  function PgtbWord(e: PgtbEntry): Word {
    var wr := match e.ty
              case PgtbLargePg => AndWord(e.phyAddr, PGTB_LG_PG_MASK)
              case PgtbSmallPg => AndWord(e.phyAddr, PGTB_SM_PG_MASK)
              case PgtbInvalid => e.phyAddr;
    OrWord(OrWord(OrWord(wr, e.accPerm * 16), e.flags), e.ty.Code())
  }

  /** The word that `create_pgd_entry` stores. */
  function PgdWord(e: PgdEntry): Word {
    var wr := match e.ty
              case PgdSection => OrWord(AndWord(e.phyAddr, PGD_SECT_MASK), e.accPerm * 0x400)
              case PgdTable => AndWord(e.phyAddr, PGD_TABLE_MASK)
              case _ => 0;
    OrWord(OrWord(OrWord(wr, e.domain * 32), e.flags), e.ty.Code())
  }

  /** Three or-ed fields below 2^k leave the base alone and the type decides the low two bits. */
  lemma LowFields(wr: Word, a: Word, f: Word, t: Word, k: nat)
    requires a < Pow2(k) && f < Pow2(k) && t < Pow2(k)
    requires wr % 4 == 0 && a % 4 == 0 && f % 4 == 0
    ensures var v := OrWord(OrWord(OrWord(wr, a), f), t);
            AlignDown(v, Pow2(k)) == AlignDown(wr, Pow2(k)) && v % 4 == t % 4
  {
    var w1 := OrWord(wr, a);
    var w2 := OrWord(w1, f);
    OrLow(wr, a, k);
    OrLow(w1, f, k);
    OrLow(w2, t, k);
    OrType(wr, a);
    OrType(w1, f);
    OrType(w2, t);
  }

  /** A small-page entry maps its page, whatever the permission. */
  lemma PgtbWordSmall(e: PgtbEntry)
    requires e.ty.PgtbSmallPg? && e.flags < PAGE && e.flags % 4 == 0
    ensures DecodeL2(PgtbWord(e)) == L2Small(AlignDown(e.phyAddr, PAGE))
  {
    assert Pow2(12) == PAGE by { PowersOfTwo(); }
    SmallMask(e.phyAddr);
    AlignedTwice(e.phyAddr, PAGE);
    LowFields(AndWord(e.phyAddr, PGTB_SM_PG_MASK), e.accPerm * 16, e.flags, 2, 12);
  }

  lemma AlignedTwice(x: Word, unit: nat)
    requires unit > 0
    ensures AlignDown(AlignDown(x, unit), unit) == AlignDown(x, unit)
    ensures unit % 4 == 0 ==> AlignDown(x, unit) % 4 == 0
  {
    if unit % 4 == 0 {
      MultipleOfPart(AlignDown(x, unit), unit, 4, unit / 4);
    }
  }

  /** An invalidating entry keeps the low bits of the address it is given: it is a fault exactly
      when those bits are 0b00 or 0b11. */
  lemma PgtbWordInvalid(e: PgtbEntry)
    requires e.ty.PgtbInvalid? && e.flags % 4 == 0
    ensures PgtbWord(e) % 4 == e.phyAddr % 4
    ensures DecodeL2(PgtbWord(e)).L2Fault? <==> e.phyAddr % 4 == 0 || e.phyAddr % 4 == 3
  {
    var w1 := OrWord(e.phyAddr, e.accPerm * 16);
    OrKeepsType(e.phyAddr, e.accPerm * 16);
    OrKeepsType(w1, e.flags);
    OrKeepsType(OrWord(w1, e.flags), 0);
  }

  lemma PgdWordTable(e: PgdEntry)
    requires e.ty.PgdTable? && e.domain < 32 && e.flags < TABLE && e.flags % 4 == 0
    ensures DecodeL1(PgdWord(e)) == L1Table(AlignDown(e.phyAddr, TABLE))
  {
    assert Pow2(10) == TABLE by { PowersOfTwo(); }
    TableMask(e.phyAddr);
    AlignedTwice(e.phyAddr, TABLE);
    LowFields(AndWord(e.phyAddr, PGD_TABLE_MASK), e.domain * 32, e.flags, 1, 10);
  }

  lemma PgdWordSection(e: PgdEntry)
    requires e.ty.PgdSection? && e.flags < SECTION && e.flags % 4 == 0
    ensures DecodeL1(PgdWord(e)) == L1Section(AlignDown(e.phyAddr, SECTION))
  {
    hide And, Or;
    var wr := OrWord(AndWord(e.phyAddr, PGD_SECT_MASK), e.accPerm * 0x400);
    SectionBase(e.phyAddr, e.accPerm);
    SectionLowFields(wr, e.domain * 32, e.flags);
  }

  /** The permission of a section lies below its base and above its type. */
  lemma SectionBase(phyAddr: Word, accPerm: AccPerm)
    ensures var wr := OrWord(AndWord(phyAddr, PGD_SECT_MASK), accPerm * 0x400);
            AlignDown(wr, SECTION) == AlignDown(phyAddr, SECTION) && wr % 4 == 0
  {
    hide And, Or;
    assert Pow2(20) == SECTION by { PowersOfTwo(); }
    SectMask(phyAddr);
    AlignedTwice(phyAddr, SECTION);
    OrLow(AndWord(phyAddr, PGD_SECT_MASK), accPerm * 0x400, 20);
    OrKeepsType(AndWord(phyAddr, PGD_SECT_MASK), accPerm * 0x400);
  }

  lemma SectionLowFields(wr: Word, a: Word, f: Word)
    requires a < SECTION && f < SECTION && wr % 4 == 0 && a % 4 == 0 && f % 4 == 0
    ensures var v := OrWord(OrWord(OrWord(wr, a), f), 2);
            AlignDown(v, SECTION) == AlignDown(wr, SECTION) && v % 4 == 2
  {
    assert Pow2(20) == SECTION by { PowersOfTwo(); }
    LowFields(wr, a, f, 2, 20);
  }

  lemma PgdWordInvalid(e: PgdEntry)
    requires e.ty.PgdInvalid? && e.flags % 4 == 0
    ensures DecodeL1(PgdWord(e)) == L1Fault
  {
    var w1 := OrWord(0, e.domain * 32);
    OrType(0, e.domain * 32);
    OrType(w1, e.flags);
    OrType(OrWord(w1, e.flags), 0);
  }

  // ----- taking a directory descriptor apart

  const PGD_DOMAIN_MASK := 0x1E0
  const PGD_AP_MASK := 0xC00
  const SECT_FLAG_MASK := 0xF_F21C    // ~(PGD_SECT_MASK | PGD_DOMAIN_MASK | PGD_AP_MASK | PGD_TYPE_MASK)
  const TABLE_FLAG_MASK := 0x21C      // ~(PGD_TABLE_MASK | PGD_DOMAIN_MASK | PGD_TYPE_MASK)

  /** What `get_pgd_entry` reads out of the descriptor word `w`; None for ENOTFND. */
  function Unpack(w: Word, virtAddr: Word): Option<PgdEntry> {
    DomainFits(w);
    PermFits(w);
    if AndWord(w, TYPE_MASK) == 2 then
      Some(PgdEntry(AndWord(w, PGD_SECT_MASK), virtAddr, AndWord(w, PGD_DOMAIN_MASK) / 32,
                    AndWord(w, PGD_AP_MASK) / 0x400, PgdSection, AndWord(w, SECT_FLAG_MASK)))
    else if AndWord(w, TYPE_MASK) == 1 then
      Some(PgdEntry(AndWord(w, PGD_TABLE_MASK), virtAddr, AndWord(w, PGD_DOMAIN_MASK) / 32,
                    0, PgdTable, AndWord(w, TABLE_FLAG_MASK)))
    else None
  }

  lemma DomainFits(w: Word)
    ensures AndWord(w, PGD_DOMAIN_MASK) / 32 < 256
  {
    AndBound(w, PGD_DOMAIN_MASK);
  }

  lemma PermFits(w: Word)
    ensures AndWord(w, PGD_AP_MASK) / 0x400 < 4
  {
    AndBound(w, PGD_AP_MASK);
  }
}
