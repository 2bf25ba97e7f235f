/** The fields of the descriptor words that armv7_mmu.c stores, at the bit positions of the ARM
    Architecture Reference Manual ARMv7-A, sections B3.5.1 and B3.5.2.
 */
module DescriptorFields {
  import opened Bits
  import opened MmuWalk
  import opened Descriptors

  /** AP[1:0] of a page, bits 5:4. */
  function PageAp(w: Word): nat {
    w / 0x10 % 4
  }

  /** AP[1:0] of a section, bits 11:10. */
  function SectionAp(w: Word): nat {
    w / 0x400 % 4
  }

  /** The domain of a table or section, bits 8:5. */
  function DomainOf(w: Word): nat {
    w / 0x20 % 16
  }

  // ----- joining fields

  /** A field of bits k..n-1 meets nothing of a number that has none of these bits. */
  lemma FieldApart(x: nat, hi: nat, lo: nat, k: nat, n: nat)
    requires k < n && x % Pow2(k) == 0 && x < Pow2(n) && hi % Pow2(n) == 0 && lo < Pow2(k)
    ensures And(x, hi + lo) == 0
  {
    hide And, Or;
    Pow2Monotonic(k, n);
    OrIsAdd(hi, lo, n);
    AndOverOr(hi, lo, x);
    OrZero(0);
    AndDisjoint(hi, x, n);
    AndDisjoint(x, lo, k);
    AndSymmetric(lo, x);
    AndSymmetric(x, hi + lo);
  }

  /** A base, two or-ed fields below it, and the type. */
  lemma JoinFields(wr: nat, x: nat, f: nat, t: nat, k: nat)
    requires wr % Pow2(k) == 0 && x < Pow2(k) && f < Pow2(k)
    requires wr % 4 == 0 && x % 4 == 0 && f % 4 == 0 && t < 4
    ensures Or(Or(Or(wr, x), f), t) == wr + Or(x, f) + t
    ensures Or(x, f) == x + f - And(x, f)
  {
    hide And, Or, Pow2;
    JoinBase(wr, x, f, k);
    OrPlusAnd(x, f);
    OrMultiple(x, f);
    SumAligned(wr, Or(x, f), 4);
    AddType(wr + Or(x, f), t);
  }

  lemma JoinBase(wr: nat, x: nat, f: nat, k: nat)
    requires wr % Pow2(k) == 0 && x < Pow2(k) && f < Pow2(k)
    ensures Or(Or(wr, x), f) == wr + Or(x, f)
  {
    hide And, Or, Pow2;
    OrAssoc(wr, x, f);
    OrBound(x, f, k);
    OrIsAdd(wr, Or(x, f), k);
  }

  lemma OrMultiple(x: nat, f: nat)
    requires x % 4 == 0 && f % 4 == 0
    ensures Or(x, f) % 4 == 0
  {
    hide Or;
    assert Pow2(2) == 4;
    OrMod(x, f, 2);
    OrZero(0);
  }

  lemma AddType(w: nat, t: nat)
    requires w % 4 == 0 && t < 4
    ensures Or(w, t) == w + t
  {
    hide Or;
    assert Pow2(2) == 4;
    OrIsAdd(w, t, 2);
  }

  /** A number without the bits of a field, split around it. */
  lemma SplitBits(f: nat, unit: nat, count: nat) returns (h: nat, l: nat)
    requires unit > 0 && count > 0 && f / unit % count == 0
    ensures l < unit && f == unit * (count * h) + l
  {
    l, h := f % unit, f / unit / count;
    assert f == unit * (f / unit) + l;
    assert f / unit == count * h;
  }

  /** Reading `v` out of a number that has it above a unit. */
  lemma FieldRead(x: nat, h: nat, v: nat, l: nat, unit: nat, count: nat)
    requires unit > 0 && l < unit && v < count && x == unit * (count * h + v) + l
    ensures x / unit % count == v
  {
    DivModUnique(x, unit, count * h + v, l);
    DivModUnique(count * h + v, count, h, v);
  }

  // ----- pages

  /** The bits of a page's permission are clear in the flags. */
  predicate ClearOfAp(flags: Word) {
    flags / 0x10 % 4 == 0
  }

  lemma ApApart(ap: AccPerm, flags: Word)
    requires ClearOfAp(flags)
    ensures And(16 * ap, flags) == 0
  {
    hide And;
    assert Pow2(4) == 16 && Pow2(6) == 64;
    hide Pow2;
    var h, l := SplitBits(flags, 16, 4);
    FieldApart(16 * ap, 64 * h, l, 4, 6);
  }

  /** The word of a small page: its page, its permission and flags, and the type 0b10. Permission
      and flags are both there as they were given exactly when they share no bit. */
  lemma SmallPageFields(e: PgtbEntry)
    requires e.ty.PgtbSmallPg? && e.flags < 0x1000 && e.flags % 4 == 0
    ensures PgtbWord(e) == AlignDown(e.phyAddr, 0x1000) + Or(16 * e.accPerm, e.flags) + 2
    ensures PgtbWord(e) == AlignDown(e.phyAddr, 0x1000) + 16 * e.accPerm + e.flags + 2 <==> And(16 * e.accPerm, e.flags) == 0
    ensures ClearOfAp(e.flags) ==> And(16 * e.accPerm, e.flags) == 0 && PageAp(PgtbWord(e)) == e.accPerm
  {
    hide And, Or, Pow2, PageAp, ClearOfAp;
    assert Pow2(12) == PAGE by { PowersOfTwo(); }
    SmallMask(e.phyAddr);
    AlignedTwice(e.phyAddr, PAGE);
    JoinFields(AlignDown(e.phyAddr, PAGE), 16 * e.accPerm, e.flags, 2, 12);
    assert PgtbWord(e) == AlignDown(e.phyAddr, PAGE) + Or(16 * e.accPerm, e.flags) + 2;
    if ClearOfAp(e.flags) {
      ApApart(e.accPerm, e.flags);
      ApRead(AlignDown(e.phyAddr, PAGE), e.accPerm, e.flags);
    }
  }

  lemma ApRead(b: Word, ap: AccPerm, flags: Word)
    requires b % PAGE == 0 && ClearOfAp(flags) && flags % 4 == 0 && b + 16 * ap + flags + 2 < WORD_LIMIT
    ensures PageAp(b + 16 * ap + flags + 2) == ap
  {
    var h, l := SplitBits(flags, 16, 4);
    var k := b / PAGE;
    TypeFits(flags, 16 * h, l, 16);
    FieldRead(b + 16 * ap + flags + 2, 64 * k + h, ap, l + 2, 16, 4);
  }

  /** The type fits below a field. */
  lemma TypeFits(f: nat, h: nat, l: nat, unit: nat)
    requires f % 4 == 0 && f == 4 * h + l && l < unit && unit % 4 == 0
    ensures l % 4 == 0 && l + 3 < unit
  {
  }

  /** The word of a large page. */
  lemma LargePageFields(e: PgtbEntry)
    requires e.ty.PgtbLargePg? && e.flags < 0x1_0000 && e.flags % 4 == 0
    ensures PgtbWord(e) == AlignDown(e.phyAddr, 0x1_0000) + Or(16 * e.accPerm, e.flags) + 1
    ensures ClearOfAp(e.flags) ==> PgtbWord(e) == AlignDown(e.phyAddr, 0x1_0000) + 16 * e.accPerm + e.flags + 1
  {
    hide And, Or;
    assert Pow2(16) == LARGE_PAGE by { PowersOfTwo(); }
    LargeMask(e.phyAddr);
    AlignedTwice(e.phyAddr, LARGE_PAGE);
    JoinFields(AlignDown(e.phyAddr, LARGE_PAGE), 16 * e.accPerm, e.flags, 1, 16);
    if ClearOfAp(e.flags) { ApApart(e.accPerm, e.flags); }
  }

  // ----- directory entries

  predicate ClearOfDomain(flags: Word) {
    flags / 0x20 % 16 == 0
  }

  lemma DomainApart(domain: Byte, flags: Word)
    requires domain < 16 && ClearOfDomain(flags)
    ensures And(32 * domain, flags) == 0
  {
    hide And;
    assert Pow2(5) == 32 && Pow2(9) == 512;
    hide Pow2;
    var h, l := SplitBits(flags, 32, 16);
    FieldApart(32 * domain, 512 * h, l, 5, 9);
  }

  /** The word of a table entry: the table, its domain and flags, and the type 0b01. */
  lemma TableFieldsSum(e: PgdEntry)
    requires e.ty.PgdTable? && e.domain < 32 && e.flags < 0x400 && e.flags % 4 == 0
    ensures PgdWord(e) == AlignDown(e.phyAddr, 0x400) + Or(32 * e.domain, e.flags) + 1
    ensures PgdWord(e) == AlignDown(e.phyAddr, 0x400) + 32 * e.domain + e.flags + 1 <==> And(32 * e.domain, e.flags) == 0
    ensures e.domain < 16 && ClearOfDomain(e.flags) ==> And(32 * e.domain, e.flags) == 0 && DomainOf(PgdWord(e)) == e.domain
  {
    hide And, Or;
    assert Pow2(10) == TABLE by { PowersOfTwo(); }
    TableMask(e.phyAddr);
    AlignedTwice(e.phyAddr, TABLE);
    JoinFields(AlignDown(e.phyAddr, TABLE), 32 * e.domain, e.flags, 1, 10);
    if e.domain < 16 && ClearOfDomain(e.flags) {
      DomainApart(e.domain, e.flags);
      DomainReadBack(AlignDown(e.phyAddr, TABLE), 2 * (AlignDown(e.phyAddr, TABLE) / TABLE), e.domain, e.flags, 1);
    }
  }

  lemma DomainReadBack(b: Word, k: nat, domain: nat, flags: Word, t: nat)
    requires b == 512 * k && domain < 16 && ClearOfDomain(flags) && flags % 4 == 0 && t < 4
    requires b + 32 * domain + flags + t < WORD_LIMIT
    ensures DomainOf(b + 32 * domain + flags + t) == domain
  {
    var h, l := SplitBits(flags, 32, 16);
    TypeFits(flags, 128 * h, l, 32);
    FieldRead(b + 32 * domain + flags + t, k + h, domain, l + t, 32, 16);
  }

  /** An invalidating directory entry holds its domain and flags and the type 0b00. */
  lemma InvalidFieldsSum(e: PgdEntry)
    requires e.ty.PgdInvalid? && e.domain < 32 && e.flags < TABLE && e.flags % 4 == 0
    ensures PgdWord(e) == Or(32 * e.domain, e.flags)
  {
    hide And, Or;
    assert Pow2(10) == TABLE by { PowersOfTwo(); }
    OrZero(32 * e.domain);
    OrZero(Or(32 * e.domain, e.flags));
  }

  /** The word of a section entry: the section, its permission, domain and flags, and the type 0b10,
      for flags outside of these fields. */
  lemma SectionFieldsSum(e: PgdEntry)
    requires e.ty.PgdSection? && e.domain < 16 && e.flags < 0x10_0000 && e.flags % 4 == 0
    requires SectionAp(e.flags) == 0 && ClearOfDomain(e.flags)
    ensures PgdWord(e) == AlignDown(e.phyAddr, 0x10_0000) + 0x400 * e.accPerm + 32 * e.domain + e.flags + 2
    ensures SectionAp(PgdWord(e)) == e.accPerm && DomainOf(PgdWord(e)) == e.domain
  {
    hide And, Or, SectionAp, DomainOf;
    var b, a, d := AlignDown(e.phyAddr, SECTION), 0x400 * e.accPerm, 32 * e.domain;
    assert Pow2(20) == SECTION && Pow2(10) == 0x400 by { PowersOfTwo(); }
    SectMask(e.phyAddr);
    AlignedTwice(e.phyAddr, SECTION);
    OrIsAdd(a, d, 10);
    OrAssoc(b, a, d);
    SectionFlagsApart(e.accPerm, e.domain, e.flags);
    JoinFields(b, a + d, e.flags, 2, 20);
    assert PgdWord(e) == b + a + d + e.flags + 2;
    SectionRead(b, e.accPerm, e.domain, e.flags);
  }

  lemma SectionFlagsApart(ap: AccPerm, domain: Byte, flags: Word)
    requires domain < 16 && SectionAp(flags) == 0 && ClearOfDomain(flags)
    ensures And(0x400 * ap + 32 * domain, flags) == 0
  {
    hide And, Or, Pow2, ClearOfDomain;
    assert Pow2(10) == 0x400 && Pow2(12) == 0x1000 by { PowersOfTwo(); }
    var h, l := SplitBits(flags, 0x400, 4);
    FieldApart(0x400 * ap, 0x1000 * h, l, 10, 12);
    DomainApart(domain, flags);
    OrIsAdd(0x400 * ap, 32 * domain, 10);
    AndOverOr(0x400 * ap, 32 * domain, flags);
    OrZero(0);
  }

  lemma SectionRead(b: Word, ap: AccPerm, domain: nat, flags: Word)
    requires b % SECTION == 0 && domain < 16 && SectionAp(flags) == 0 && ClearOfDomain(flags) && flags % 4 == 0
    requires b + 0x400 * ap + 32 * domain + flags + 2 < WORD_LIMIT
    ensures SectionAp(b + 0x400 * ap + 32 * domain + flags + 2) == ap
    ensures DomainOf(b + 0x400 * ap + 32 * domain + flags + 2) == domain
  {
    var h, l := SplitBits(flags, 0x400, 4);
    var k := b / SECTION;
    var h', l' := SplitBits(flags, 32, 16);
    BelowPermission(flags, h, l, h', l', domain);
    FieldRead(b + 0x400 * ap + 32 * domain + flags + 2, 256 * k + h, ap, 32 * domain + l + 2, 0x400, 4);
    DomainReadBack(b + 0x400 * ap, 2048 * k + 2 * ap, domain, flags, 2);
  }

  /** Domain, low flags and type fit below the permission. */
  lemma BelowPermission(flags: nat, h: nat, l: nat, h': nat, l': nat, domain: nat)
    requires flags == 0x1000 * h + l && l < 0x400 && flags == 512 * h' + l' && l' < 32
    requires domain < 16 && flags % 4 == 0
    ensures 32 * domain + l + 2 < 0x400
  {
    var d := h' - 8 * h;
    assert l == 512 * d + l';
    TypeFits(flags, 128 * h', l', 32);
  }
}
