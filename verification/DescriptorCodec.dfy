/** Reading back a directory entry: `get_pgd_entry` after `create_pgd_entry` in armv7_mmu.c. */
module DescriptorCodec {
  import opened Bits
  import opened Types
  import opened MmuWalk
  import opened Descriptors

  /** A field that lies under mask `own` shows through mask `m` completely or not at all. */
  lemma FieldUnder(x: nat, own: nat, m: nat)
    requires And(x, own) == x
    ensures And(own, m) == 0 ==> And(x, m) == 0
    ensures And(own, m) == own ==> And(x, m) == x
  {
    AndAssoc(x, own, m);
  }

  lemma ShlByFive(x: nat)
    ensures Shl(x, 5) == 32 * x
  {
    assert Shl(x, 1) == 2 * x;
    assert Shl(x, 2) == 4 * x;
    assert Shl(x, 3) == 8 * x;
    assert Shl(x, 4) == 16 * x;
  }

  lemma ShlByTen(x: nat)
    ensures Shl(x, 10) == 0x400 * x
  {
    ShlByFive(x);
    assert Shl(x, 6) == 64 * x;
    assert Shl(x, 7) == 128 * x;
    assert Shl(x, 8) == 256 * x;
    assert Shl(x, 9) == 512 * x;
  }

  lemma DomainUnder(domain: Byte)
    requires domain < 16
    ensures And(domain * 32, PGD_DOMAIN_MASK) == domain * 32
  {
    AndShl(domain, 15, 5);
    ShlByFive(domain);
    ShlByFive(15);
    assert Pow2(4) == 16;
    AndLowMask(domain, 4);
    SmallMod(domain, 16);
  }

  lemma PermUnder(acc: AccPerm)
    ensures And(acc * 0x400, PGD_AP_MASK) == acc * 0x400
  {
    AndShl(acc, 3, 10);
    ShlByTen(acc);
    ShlByTen(3);
    assert Pow2(2) == 4;
    AndLowMask(acc, 2);
    SmallMod(acc, 4);
  }

  /** Three or-ed fields and a type, each seen through `m`. */
  lemma FieldsThrough(b: nat, d: nat, f: nat, t: nat, m: nat)
    ensures And(Or(Or(Or(b, d), f), t), m) == Or(Or(Or(And(b, m), And(d, m)), And(f, m)), And(t, m))
  {
    AndOverOr(Or(Or(b, d), f), t, m);
    AndOverOr(Or(b, d), f, m);
    AndOverOr(b, d, m);
  }

  /** Fields that lie under disjoint masks can be read back one by one. */
  lemma DisjointFields(b: nat, mb: nat, d: nat, md: nat, f: nat, mf: nat, t: nat)
    requires And(b, mb) == b && And(d, md) == d && And(f, mf) == f && And(t, 3) == t
    requires And(mb, md) == And(mb, mf) == And(mb, 3) == 0
    requires And(md, mb) == And(md, mf) == And(md, 3) == 0
    requires And(mf, mb) == And(mf, md) == And(mf, 3) == 0
    requires And(3, mb) == And(3, md) == And(3, mf) == 0
    ensures var w := Or(Or(Or(b, d), f), t);
            And(w, mb) == b && And(w, md) == d && And(w, mf) == f && And(w, 3) == t
  {
    OneField(b, mb, d, md, f, mf, t, 3, mb);
    OneField(b, mb, d, md, f, mf, t, 3, md);
    OneField(b, mb, d, md, f, mf, t, 3, mf);
    OneField(b, mb, d, md, f, mf, t, 3, 3);
    OrZero(b);
    OrZero(d);
    OrZero(f);
    OrZero(t);
  }

  lemma OneField(b: nat, mb: nat, d: nat, md: nat, f: nat, mf: nat, t: nat, mt: nat, m: nat)
    requires And(b, mb) == b && And(d, md) == d && And(f, mf) == f && And(t, mt) == t
    ensures And(Or(Or(Or(b, d), f), t), m) == Or(Or(Or(And(b, m), And(d, m)), And(f, m)), And(t, m))
    ensures And(mb, m) == 0 ==> And(b, m) == 0
    ensures And(md, m) == 0 ==> And(d, m) == 0
    ensures And(mf, m) == 0 ==> And(f, m) == 0
    ensures And(mt, m) == 0 ==> And(t, m) == 0
  {
    FieldsThrough(b, d, f, t, m);
    FieldUnder(b, mb, m);
    FieldUnder(d, md, m);
    FieldUnder(f, mf, m);
    FieldUnder(t, mt, m);
  }

  /** A mask made of two parts meets `a` where either part does. */
  lemma SplitMask(a: nat, hi: nat, lo: nat, k: nat)
    requires hi % Pow2(k) == 0 && lo < Pow2(k)
    requires And(hi, a) == 0 && And(lo, a) == 0
    ensures And(hi + lo, a) == And(a, hi + lo) == 0
  {
    OrIsAdd(hi, lo, k);
    AndOverOr(hi, lo, a);
    AndSymmetric(hi + lo, a);
  }

  lemma TableMasksDisjoint()
    ensures And(0xFFFF_FC00, 0x1E0) == And(0xFFFF_FC00, 0x21C) == And(0xFFFF_FC00, 3) == 0
    ensures And(0x1E0, 0xFFFF_FC00) == And(0x1E0, 0x21C) == And(0x1E0, 3) == 0
    ensures And(0x21C, 0xFFFF_FC00) == And(0x21C, 0x1E0) == And(0x21C, 3) == 0
    ensures And(3, 0xFFFF_FC00) == And(3, 0x1E0) == And(3, 0x21C) == 0
  {
    PowersOfTwo();
    AndDisjoint(0xFFFF_FC00, 0x1E0, 10);
    AndDisjoint(0xFFFF_FC00, 0x21C, 10);
    AndDisjoint(0xFFFF_FC00, 3, 10);
    AndDisjoint(0x1E0, 3, 5);
    AndDisjoint(0x21C, 3, 2);
    AndDisjoint(0x200, 0x1E0, 9);
    AndDisjoint(0x1E0, 0x1C, 5);
    SplitMask(0x1E0, 0x200, 0x1C, 5);
  }

  /** A table entry reads back as it was written, permission aside, exactly when its domain and
      flags stay in their fields. */
  lemma TableRoundTrip(e: PgdEntry)
    requires e.ty.PgdTable?
    ensures Unpack(PgdWord(e), e.virtAddr) == Some(e.(phyAddr := AlignDown(e.phyAddr, TABLE), accPerm := 0)) <==>
            e.domain < 16 && And(e.flags, 0x21C) == e.flags
  {
    hide And, Or;
    if e.domain < 16 && And(e.flags, TABLE_FLAG_MASK) == e.flags {
      TableReadsBack(e);
    }
    DomainRead(PgdWord(e));
    MaskTwice(PgdWord(e), TABLE_FLAG_MASK);
  }

  lemma TableReadsBack(e: PgdEntry)
    requires e.ty.PgdTable? && e.domain < 16 && And(e.flags, TABLE_FLAG_MASK) == e.flags
    ensures Unpack(PgdWord(e), e.virtAddr) == Some(e.(phyAddr := AlignDown(e.phyAddr, TABLE), accPerm := 0))
  {
    hide And, Or;
    var b, d := AndWord(e.phyAddr, PGD_TABLE_MASK), e.domain * 32;
    TableMask(e.phyAddr);
    MaskTwice(e.phyAddr, PGD_TABLE_MASK);
    DomainUnder(e.domain);
    TableFields(b, d, e.flags);
    assert PgdWord(e) == Or(Or(Or(b, d), e.flags), 1);
  }

  lemma DomainRead(w: Word)
    ensures AndWord(w, PGD_DOMAIN_MASK) / 32 < 16
  {
    AndBound(w, PGD_DOMAIN_MASK);
  }

  lemma MaskTwice(x: nat, mask: nat)
    ensures And(And(x, mask), mask) == And(x, mask)
  {
    AndAssoc(x, mask, mask);
    AndSelf(mask);
  }

  lemma TableFields(b: Word, d: nat, f: nat)
    requires And(b, PGD_TABLE_MASK) == b && And(d, PGD_DOMAIN_MASK) == d && And(f, TABLE_FLAG_MASK) == f
    ensures var w := Or(Or(Or(b, d), f), 1);
            && And(w, PGD_TABLE_MASK) == b && And(w, PGD_DOMAIN_MASK) == d
            && And(w, TABLE_FLAG_MASK) == f && And(w, TYPE_MASK) == 1
  {
    TableMasksDisjoint();
    assert And(1, 3) == 1;
    DisjointFields(b, PGD_TABLE_MASK, d, PGD_DOMAIN_MASK, f, TABLE_FLAG_MASK, 1);
  }

  lemma UnionMask(p: nat, q: nat, k: nat)
    requires p % Pow2(k) == 0 && q < Pow2(k)
    ensures And(p + q, p) == And(p, p + q) == p
    ensures And(p + q, q) == And(q, p + q) == q
  {
    OrIsAdd(p, q, k);
    AndDisjoint(p, q, k);
    AndSelf(p);
    AndSelf(q);
    AndOverOr(p, q, p);
    AndOverOr(p, q, q);
    OrZero(p);
    OrZero(q);
    AndSymmetric(p, p + q);
    AndSymmetric(q, p + q);
  }

  const BASE_AP_MASK := 0xFFF0_0C00   // PGD_SECT_MASK | PGD_AP_MASK

  lemma SectionMasksDisjoint()
    ensures And(0xFFF0_0C00, 0x1E0) == And(0xFFF0_0C00, 0xF_F21C) == And(0xFFF0_0C00, 3) == 0
    ensures And(0x1E0, 0xFFF0_0C00) == And(0x1E0, 0xF_F21C) == And(0x1E0, 3) == 0
    ensures And(0xF_F21C, 0xFFF0_0C00) == And(0xF_F21C, 0x1E0) == And(0xF_F21C, 3) == 0
    ensures And(3, 0xFFF0_0C00) == And(3, 0x1E0) == And(3, 0xF_F21C) == 0
  {
    PowersOfTwo();
    AndDisjoint(0xFFF0_0C00, 0x1E0, 10);
    AndDisjoint(0xFFF0_0C00, 3, 10);
    AndDisjoint(0x1E0, 3, 5);
    AndDisjoint(0xF_F21C, 3, 2);
    FlagsMissDomain();
    FlagsMissBase();
  }

  lemma FlagsMissDomain()
    ensures And(0x1E0, 0xF_F21C) == And(0xF_F21C, 0x1E0) == 0
  {
    assert Pow2(9) == 0x200 && Pow2(5) == 32;
    AndDisjoint(0xF_F200, 0x1E0, 9);
    AndDisjoint(0x1E0, 0x1C, 5);
    SplitMask(0x1E0, 0xF_F200, 0x1C, 5);
  }

  lemma FlagsMissBase()
    ensures And(0xFFF0_0C00, 0xF_F21C) == And(0xF_F21C, 0xFFF0_0C00) == 0
  {
    PowersOfTwo();
    AndDisjoint(0xFFF0_0000, 0xF_F21C, 20);
    AndDisjoint(0xF_F000, 0xC00, 12);
    AndDisjoint(0xC00, 0x21C, 10);
    SplitMask(0xC00, 0xF_F000, 0x21C, 12);
    SplitMask(0xF_F21C, 0xFFF0_0000, 0xC00, 12);
  }

  /** Base and permission of a section, or-ed, come apart again. */
  lemma BaseAndPerm(b: Word, a: nat)
    requires And(b, PGD_SECT_MASK) == b && And(a, PGD_AP_MASK) == a
    ensures And(Or(b, a), BASE_AP_MASK) == Or(b, a)
    ensures And(Or(b, a), PGD_SECT_MASK) == b && And(Or(b, a), PGD_AP_MASK) == a
  {
    assert Pow2(12) == 0x1000 by { PowersOfTwo(); }
    UnionMask(PGD_SECT_MASK, PGD_AP_MASK, 12);
    AndDisjoint(PGD_SECT_MASK, PGD_AP_MASK, 12);
    AndOverOr(b, a, BASE_AP_MASK);
    AndOverOr(b, a, PGD_SECT_MASK);
    AndOverOr(b, a, PGD_AP_MASK);
    FieldUnder(b, PGD_SECT_MASK, BASE_AP_MASK);
    FieldUnder(a, PGD_AP_MASK, BASE_AP_MASK);
    FieldUnder(b, PGD_SECT_MASK, PGD_AP_MASK);
    FieldUnder(a, PGD_AP_MASK, PGD_SECT_MASK);
    OrZero(a);
    OrZero(b);
  }

  lemma SectionFields(b: Word, a: nat, d: nat, f: nat)
    requires And(b, PGD_SECT_MASK) == b && And(a, PGD_AP_MASK) == a
    requires And(d, PGD_DOMAIN_MASK) == d && And(f, SECT_FLAG_MASK) == f
    ensures var w := Or(Or(Or(Or(b, a), d), f), 2);
            && And(w, PGD_SECT_MASK) == b && And(w, PGD_AP_MASK) == a
            && And(w, PGD_DOMAIN_MASK) == d && And(w, SECT_FLAG_MASK) == f && And(w, TYPE_MASK) == 2
  {
    BaseAndPerm(b, a);
    SectionMasksDisjoint();
    assert And(2, 3) == 2;
    DisjointFields(Or(b, a), BASE_AP_MASK, d, PGD_DOMAIN_MASK, f, SECT_FLAG_MASK, 2);
    ThroughUnion(Or(Or(Or(Or(b, a), d), f), 2));
  }

  /** A section entry reads back as it was written exactly when its domain and flags stay in their
      fields. */
  lemma SectionRoundTrip(e: PgdEntry)
    requires e.ty.PgdSection?
    ensures Unpack(PgdWord(e), e.virtAddr) == Some(e.(phyAddr := AlignDown(e.phyAddr, SECTION))) <==>
            e.domain < 16 && And(e.flags, 0xF_F21C) == e.flags
  {
    hide And, Or;
    if e.domain < 16 && And(e.flags, SECT_FLAG_MASK) == e.flags {
      SectionReadsBack(e);
    }
    DomainRead(PgdWord(e));
    MaskTwice(PgdWord(e), SECT_FLAG_MASK);
  }

  lemma SectionReadsBack(e: PgdEntry)
    requires e.ty.PgdSection? && e.domain < 16 && And(e.flags, SECT_FLAG_MASK) == e.flags
    ensures Unpack(PgdWord(e), e.virtAddr) == Some(e.(phyAddr := AlignDown(e.phyAddr, SECTION)))
  {
    hide And, Or;
    var b, a, d := AndWord(e.phyAddr, PGD_SECT_MASK), e.accPerm * 0x400, e.domain * 32;
    SectMask(e.phyAddr);
    MaskTwice(e.phyAddr, PGD_SECT_MASK);
    PermUnder(e.accPerm);
    DomainUnder(e.domain);
    SectionFields(b, a, d, e.flags);
    var w := PgdWord(e);
    assert w == Or(Or(Or(Or(b, a), d), e.flags), 2);
    assert AndWord(w, TYPE_MASK) == 2;
    assert AndWord(w, PGD_DOMAIN_MASK) / 32 == e.domain;
    assert AndWord(w, PGD_SECT_MASK) == b;
    assert AndWord(w, PGD_AP_MASK) / 0x400 == e.accPerm;
    assert AndWord(w, SECT_FLAG_MASK) == e.flags;
  }

  lemma ThroughUnion(w: nat)
    ensures And(w, PGD_SECT_MASK) == And(And(w, BASE_AP_MASK), PGD_SECT_MASK)
    ensures And(w, PGD_AP_MASK) == And(And(w, BASE_AP_MASK), PGD_AP_MASK)
  {
    assert Pow2(12) == 0x1000 by { PowersOfTwo(); }
    UnionMask(PGD_SECT_MASK, PGD_AP_MASK, 12);
    AndAssoc(w, BASE_AP_MASK, PGD_SECT_MASK);
    AndAssoc(w, BASE_AP_MASK, PGD_AP_MASK);
  }
}
