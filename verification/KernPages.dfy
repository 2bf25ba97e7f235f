/** Which pages the mapping loop of `init_map_kern_pgtb` works on
    (source/mach/vexpress_a9/init/vexpress_init.c).

    The loop adds the iteration number to the base when it chooses a table, and joins the two with
    `|` when it chooses the entry and the page frame. Pages are counted from the start of the
    kernel windows: page q is at `KP_START + PAGE * q` and, virtually, at `KV_START + PAGE * q`.
 */
module KernPages {
  import opened Bits
  import opened Types
  import opened MmuWalk
  import opened MemLayout

  const WINDOW_PAGES := 0x2_0000

  // ----- how many pages a region takes

  /** `pg_cnt`: the size in pages, rounded up to a power of two. */
  function PgCnt(size: Word): nat {
    if !IsPowerOfTwo(size) then Shr(ClrLvMsb(size), 11) else Shr(ClrLvMsb(size), 12)
  }

  lemma PgCntAt(size: Word, k: nat)
    requires Pow2(k) <= size < Pow2(k + 1) && 12 <= k < 32
    ensures PgCnt(size) == Pow2(if size == Pow2(k) then k - 12 else k - 11)
  {
    IdxMsbAt(size, k);
    PowerOfTwoAt(size, k);
    PowerShift(k, 12);
    PowerShift(k, 11);
  }

  lemma PgCntBelowPage(size: Word)
    requires size < PAGE
    ensures PgCnt(size) == if size > 2048 then 1 else 0
  {
    if size == 0 {
      ZeroCount(0, 11);
      ZeroCount(0, 12);
    } else {
      hide And, PgCnt;
      assert Pow2(11) == 2048 && Pow2(12) == PAGE by { assert Pow2(12) == 2 * Pow2(11); PowersOfTwo(); }
      var k := TopBitExists(size, 12);
      if k < 11 {
        Pow2Monotonic(k, 11);
        CountBelowHalf(size, k);
      } else {
        CountAboveHalf(size);
      }
    }
  }

  lemma CountBelowHalf(size: Word, k: nat)
    requires Pow2(k) <= size < Pow2(k + 1) && k < 11
    ensures PgCnt(size) == 0
  {
    hide And;
    IdxMsbAt(size, k);
    Pow2Monotonic(k, 11);
    ZeroCount(Pow2(k), 11);
    Pow2Monotonic(k, 12);
    ZeroCount(Pow2(k), 12);
  }

  lemma CountAboveHalf(size: Word)
    requires Pow2(11) <= size < Pow2(12)
    ensures PgCnt(size) == if size == Pow2(11) then 0 else 1
  {
    hide And;
    IdxMsbAt(size, 11);
    PowerOfTwoAt(size, 11);
    PowerShift(11, 11);
    ZeroCount(Pow2(11), 12);
  }

  lemma ZeroCount(x: nat, k: nat)
    requires x < Pow2(k)
    ensures Shr(x, k) == 0
  {
    ShrIsDiv(x, k);
    SmallMod(x, Pow2(k));
  }

  lemma {:induction false} PowerShift(k: nat, s: nat)
    requires s <= k
    ensures Shr(Pow2(k), s) == Pow2(k - s)
    decreases s
  {
    if s > 0 {
      PowerShift(k - 1, s - 1);
    }
  }

  lemma PagePower(c: nat)
    ensures PAGE * Pow2(c) == Pow2(c + 12)
  {
    Pow2Add(c, 12);
    PowersOfTwo();
  }

  lemma TopBitAbovePage(size: Word) returns (k: nat)
    requires size >= PAGE
    ensures 12 <= k < 32 && Pow2(k) <= size < Pow2(k + 1)
  {
    PowersOfTwo();
    k := TopBitExists(size, 32);
    if k < 11 { Pow2Monotonic(k + 1, 12); }
  }

  /** From a little over half a page on, the count is the least power of two whose pages hold the
      region. */
  lemma PgCntPower(size: Word) returns (c: nat)
    requires size > 2048
    ensures PgCnt(size) == Pow2(c) && c <= 20
    ensures size <= PAGE * Pow2(c)
    ensures c > 0 ==> PAGE * Pow2(c - 1) < size
  {
    if size < PAGE {
      PgCntBelowPage(size);
      c := 0;
    } else {
      var k := TopBitAbovePage(size);
      PgCntAt(size, k);
      c := if size == Pow2(k) then k - 12 else k - 11;
      PagePower(c);
      assert Pow2(k + 1) == 2 * Pow2(k);
      if c > 0 { PagePower(c - 1); }
    }
  }

  /** The pages counted hold the region exactly when it is empty or larger than half a page. */
  lemma PgCntCovers(size: Word)
    ensures size <= PAGE * PgCnt(size) <==> size == 0 || size > 2048
    ensures size > 2048 ==> PAGE * PgCnt(size) < 2 * size
  {
    if size > 2048 {
      var c := PgCntPower(size);
      if c > 0 { assert Pow2(c) == 2 * Pow2(c - 1); }
    } else {
      PgCntBelowPage(size);
    }
  }

  lemma PgCntInWindow(size: Word)
    requires size <= WINDOW
    ensures PgCnt(size) <= WINDOW_PAGES
  {
    if size > 2048 {
      var c := PgCntPower(size);
      CountBound(c, size);
    } else {
      PgCntBelowPage(size);
    }
  }

  lemma CountBound(c: nat, size: nat)
    requires size <= WINDOW && (c > 0 ==> PAGE * Pow2(c - 1) < size)
    ensures Pow2(c) <= WINDOW_PAGES
  {
    WindowPagesPower();
    if c > 18 {
      Pow2Monotonic(17, c - 1);
    } else if c < 17 {
      Pow2Monotonic(c, 17);
    }
  }

  lemma WindowPagesPower()
    ensures Pow2(17) == WINDOW_PAGES
  {
    assert Pow2(17) == 2 * Pow2(16);
    PowersOfTwo();
  }

  // ----- what the loop writes

  /** The word of the table region that iteration `i` writes for a region that starts at page
      `q`: the table is that of page q + i, the entry is that of page q | i. */
  function LoopWord(q: nat, i: nat): nat {
    256 * ((q + i) / 256) + Or(q, i) % 256
  }

  /** The region's words by the page frame they hold, after `n` iterations. */
  ghost function LoopMap(pm: map<nat, nat>, q: nat, n: nat): map<nat, nat> {
    if n == 0 then pm else LoopMap(pm, q, n - 1)[LoopWord(q, n - 1) := Or(q, n - 1)]
  }

  lemma {:induction false} LoopMapAdds(pm: map<nat, nat>, q: nat, n: nat)
    ensures LoopMap(pm, q, n) == pm + LoopMap(map[], q, n)
  {
    if n > 0 {
      LoopMapAdds(pm, q, n - 1);
    }
  }

  /** Every entry comes from some iteration. */
  lemma {:induction false} LoopMapFrom(q: nat, n: nat, j: nat) returns (i: nat)
    requires j in LoopMap(map[], q, n)
    ensures i < n && j == LoopWord(q, i) && LoopMap(map[], q, n)[j] == Or(q, i)
  {
    if j == LoopWord(q, n - 1) {
      i := n - 1;
    } else {
      i := LoopMapFrom(q, n - 1, j);
    }
  }

  /** An entry stays when later iterations for the same word have the same frame. */
  lemma {:induction false} LoopMapKeeps(q: nat, n: nat, i: nat)
    requires i < n && forall k :: i < k < n && LoopWord(q, k) == LoopWord(q, i) ==> Or(q, k) == Or(q, i)
    ensures LoopWord(q, i) in LoopMap(map[], q, n) && LoopMap(map[], q, n)[LoopWord(q, i)] == Or(q, i)
  {
    if i < n - 1 {
      LoopMapKeeps(q, n - 1, i);
    }
  }

  lemma LoopWordBound(q: nat, i: nat)
    requires q < WINDOW_PAGES && i < WINDOW_PAGES
    ensures LoopWord(q, i) < 2 * WINDOW_PAGES && Or(q, i) < WINDOW_PAGES
  {
    WindowPagesPower();
    OrBound(q, i, 17);
  }

  // ----- when the pages are the right ones

  /** For a start aligned to the count the loop maps the pages from q on, each to its own frame. */
  lemma {:induction false} AlignedLoop(q: nat, c: nat, n: nat)
    requires q % Pow2(c) == 0 && n <= Pow2(c)
    ensures forall j :: j in LoopMap(map[], q, n) <==> q <= j < q + n
    ensures forall j :: j in LoopMap(map[], q, n) ==> LoopMap(map[], q, n)[j] == j
    decreases n
  {
    hide Or, Pow2;
    if n > 0 {
      AlignedLoop(q, c, n - 1);
      OrIsAdd(q, n - 1, c);
      WordOfPage(q + (n - 1));
    }
  }

  lemma WordOfPage(j: nat)
    ensures 256 * (j / 256) + j % 256 == j
  {
  }

  /** Otherwise some page of the region is left without its frame: adding a set bit of q below the
      count clears that bit, and `|` never does. */
  lemma UnalignedLoop(q: nat, c: nat) returns (j: nat)
    requires q % Pow2(c) != 0
    ensures c > 0 && q <= j < q + Pow2(c - 1) + 1
    ensures forall i :: Or(q, i) != j
  {
    var t := TopBitExists(q % Pow2(c), c);
    TopBit(q % Pow2(c), t);
    BitOfMod(q, c, t);
    j := q + Pow2(t);
    if t < c - 1 { Pow2Monotonic(t, c - 1); }
    BitCleared(q, t);
    forall i: nat ensures Or(q, i) != j {
      BitOfOr(q, i, t);
    }
  }

  lemma {:induction false} BitCleared(q: nat, t: nat)
    requires Bit(q, t)
    ensures !Bit(q + Pow2(t), t)
    decreases t
  {
    if t > 0 {
      BitCleared(q / 2, t - 1);
      assert (q + Pow2(t)) / 2 == q / 2 + Pow2(t - 1);
    }
  }

  /** Page `j` has its own frame. */
  ghost predicate Own(pm: map<nat, nat>, j: nat) {
    j in pm && pm[j] == j
  }

  /** The loop gives a page its own frame exactly when the page is one of the `n` that are counted
      and its distance from the start has no bit in common with the start. */
  lemma LoopOwnsExactly(q: nat, n: nat, j: nat)
    ensures Own(LoopMap(map[], q, n), j) <==> q <= j < q + n && And(q, j - q) == 0
  {
    hide LoopMap, LoopWord, Or, And;
    if Own(LoopMap(map[], q, n), j) {
      var i := LoopMapFrom(q, n, j);
      OrPlusAnd(q, i);
      OrAtLeast(q, i);
      OrDisjoint(q, i, j - q);
    }
    if q <= j < q + n && And(q, j - q) == 0 {
      OrPlusAnd(q, j - q);
      JoinedWord(q, j - q);
      forall k | j - q < k < n && LoopWord(q, k) == LoopWord(q, j - q) ensures Or(q, k) == Or(q, j - q) {
        SameWordSameFrame(q, j - q, k);
      }
      LoopMapKeeps(q, n, j - q);
    }
  }

  lemma {:induction false} OrAtLeast(a: nat, b: nat)
    ensures a <= Or(a, b)
  {
    if a > 0 {
      OrHalves(a, b);
      OrAtLeast(a / 2, b / 2);
    }
  }

  /** What `|` adds to a number has no bit in common with it. */
  lemma {:induction false} OrDisjoint(q: nat, i: nat, t: nat)
    requires Or(q, i) == q + t
    ensures And(q, t) == 0
  {
    if q > 0 {
      OrHalves(q, i);
      assert (q + t) / 2 == q / 2 + t / 2;
      OrDisjoint(q / 2, i / 2, t / 2);
    }
  }

  lemma JoinedWord(q: nat, t: nat)
    requires Or(q, t) == q + t
    ensures LoopWord(q, t) == q + t
  {
    WordOfPage(q + t);
  }

  /** An iteration of the table that has page q + t, for the entry of that page, has its frame. */
  lemma SameWordSameFrame(q: nat, t: nat, k: nat)
    requires Or(q, t) == q + t && t <= k && LoopWord(q, k) == LoopWord(q, t)
    ensures Or(q, k) == Or(q, t)
  {
    hide Or;
    SameTableEntry((q + k) / 256, Or(q, k) % 256, (q + t) / 256, Or(q, t) % 256);
    NoCarry(q, t);
    SameTable(q, t, k);
    OrTables(q, t);
    OrTables(q, k);
    WordOfPage(Or(q, k));
    WordOfPage(Or(q, t));
  }

  lemma SameTableEntry(a: nat, x: nat, b: nat, y: nat)
    requires 256 * a + x == 256 * b + y && x < 256 && y < 256
    ensures a == b && x == y
  {
  }

  lemma OrTables(a: nat, b: nat)
    ensures Or(a, b) / 256 == Or(a / 256, b / 256)
  {
    hide Or;
    assert Pow2(8) == 256 by { PowersOfTwo(); }
    OrShr(a, b, 8);
    ShrIsDiv(Or(a, b), 8);
    ShrIsDiv(a, 8);
    ShrIsDiv(b, 8);
  }

  /** When `|` is `+` the entries do not carry into the tables. */
  lemma NoCarry(q: nat, t: nat)
    requires Or(q, t) == q + t
    ensures (q + t) / 256 == q / 256 + t / 256
  {
    OrTables(q, t);
    OrPlusAnd(q / 256, t / 256);
  }

  lemma SameTable(q: nat, t: nat, k: nat)
    requires (q + t) / 256 == q / 256 + t / 256 && t <= k && (q + k) / 256 == (q + t) / 256
    ensures k / 256 == t / 256
  {
  }

  /** Every one of the first `n` pages gets its own frame. */
  ghost predicate OwnFrames(pm: map<nat, nat>, q: nat, n: nat) {
    forall j :: q <= j < q + n ==> Own(pm, j)
  }

  /** A loop of 2^c iterations for n pages that no smaller power of two holds gives every page its
      own frame exactly when they are no more than 2^c and the first is a multiple of 2^c. */
  lemma LoopCovers(q: nat, n: nat, c: nat)
    requires n > 0 && (c > 0 ==> Pow2(c - 1) < n)
    ensures OwnFrames(LoopMap(map[], q, Pow2(c)), q, n) <==> q % Pow2(c) == 0 && n <= Pow2(c)
  {
    hide LoopMap, LoopWord, Or, And;
    var p := Pow2(c);
    if q % p == 0 {
      AlignedLoop(q, c, p);
      assert n > p ==> !Own(LoopMap(map[], q, p), q + p);
    } else {
      var j := UnalignedLoop(q, c);
      if j in LoopMap(map[], q, p) {
        var i := LoopMapFrom(q, p, j);
      }
      assert !Own(LoopMap(map[], q, p), j);
    }
  }

  // ----- regions

  /** A region inside the physical window. */
  predicate InWindow(reg: MmReg) {
    KP_START <= reg.base && reg.base + reg.size <= KP_START + WINDOW
  }

  /** Number of the kernel page at a region's base. */
  function FirstPage(reg: MmReg): nat
    requires InWindow(reg)
  {
    (reg.base - KP_START) / PAGE
  }

  function PageOf(p: Word): nat
    requires KP_START <= p
  {
    (p - KP_START) / PAGE
  }

  /** What one call maps. */
  ghost function RegionMap(reg: MmReg): map<nat, nat>
    requires InWindow(reg)
  {
    LoopMap(map[], FirstPage(reg), PgCnt(reg.size))
  }

  /** Based at a multiple of the rounded size. */
  predicate Placed(reg: MmReg)
    requires InWindow(reg)
  {
    PgCnt(reg.size) > 0 ==> FirstPage(reg) % PgCnt(reg.size) == 0
  }

  /** Every byte of the region lies in a page that the call maps to its own frame. */
  ghost predicate RegionMapped(reg: MmReg)
    requires InWindow(reg)
  {
    forall p: Word :: reg.base <= p < reg.base + reg.size ==> Own(RegionMap(reg), PageOf(p))
  }

  /** Number of pages that a region touches. */
  function Touched(reg: MmReg): nat {
    (reg.base % PAGE + reg.size + (PAGE - 1)) / PAGE
  }

  lemma TouchedPages(reg: MmReg)
    requires InWindow(reg) && reg.size > 0
    ensures RegionMapped(reg) <==> OwnFrames(RegionMap(reg), FirstPage(reg), Touched(reg))
  {
    hide RegionMap;
    if RegionMapped(reg) {
      forall j | FirstPage(reg) <= j < FirstPage(reg) + Touched(reg) ensures Own(RegionMap(reg), j) {
        var o := ByteInPage(reg.base - KP_START, j, reg.size);
        var p: Word := KP_START + o;
        assert PageOf(p) == j;
      }
    }
    if OwnFrames(RegionMap(reg), FirstPage(reg), Touched(reg)) {
      forall p: Word | reg.base <= p < reg.base + reg.size ensures Own(RegionMap(reg), PageOf(p)) {
        PageRange(reg.base - KP_START, p - KP_START, reg.size);
      }
    }
  }

  lemma PageRange(base: nat, p: nat, size: nat)
    requires base <= p < base + size
    ensures base / PAGE <= p / PAGE < base / PAGE + (base % PAGE + size + (PAGE - 1)) / PAGE
  {
  }

  lemma ByteInPage(base: nat, j: nat, size: nat) returns (p: nat)
    requires size > 0 && base / PAGE <= j < base / PAGE + (base % PAGE + size + (PAGE - 1)) / PAGE
    ensures base <= p < base + size && p / PAGE == j
  {
    p := if j == base / PAGE then base else PAGE * j;
  }

  /** A call maps every byte of a region exactly when its base is a multiple of its rounded size and
      the pages counted reach from its first page to its end. */
  lemma RegionMappedExactly(reg: MmReg)
    requires InWindow(reg) && reg.size > 0
    ensures RegionMapped(reg) <==> Placed(reg) && reg.base % PAGE + reg.size <= PAGE * PgCnt(reg.size)
  {
    hide PgCnt, LoopMap;
    TouchedPages(reg);
    var q, n := FirstPage(reg), Touched(reg);
    if reg.size > 2048 {
      var c := PgCntPower(reg.size);
      TouchedCount(reg.base % PAGE, reg.size, c);
      LoopCovers(q, n, c);
    } else {
      PgCntBelowPage(reg.size);
      EmptyLoop(q, PgCnt(reg.size));
      assert n > 0 && !Own(RegionMap(reg), q);
    }
  }

  lemma EmptyLoop(q: nat, n: nat)
    requires n == 0
    ensures LoopMap(map[], q, n) == map[]
  {
  }

  lemma TouchedCount(offset: nat, size: nat, c: nat)
    requires 0 < size && (c > 0 ==> PAGE * Pow2(c - 1) < size)
    ensures var n := (offset + size + (PAGE - 1)) / PAGE;
            && n > 0 && (c > 0 ==> Pow2(c - 1) < n)
            && (n <= Pow2(c) <==> offset + size <= PAGE * Pow2(c))
  {
  }

  /** A page that the call for the region counts and gives its own frame. */
  predicate Reaches(reg: MmReg, j: nat)
    requires InWindow(reg)
  {
    && FirstPage(reg) <= j < FirstPage(reg) + PgCnt(reg.size)
    && And(FirstPage(reg), j - FirstPage(reg)) == 0
  }

  /** For any region, placed or not, the pages that get their own frame. */
  lemma RegionOwnsExactly(reg: MmReg, j: nat)
    requires InWindow(reg)
    ensures Own(RegionMap(reg), j) <==> Reaches(reg, j)
  {
    hide PgCnt, LoopMap, And;
    LoopOwnsExactly(FirstPage(reg), PgCnt(reg.size), j);
  }

  /** A call for a placed region maps pages to their own frames only. */
  lemma PlacedIsIdentity(reg: MmReg)
    requires InWindow(reg) && Placed(reg)
    ensures forall j :: j in RegionMap(reg) ==> RegionMap(reg)[j] == j
  {
    if reg.size > 2048 {
      var c := PgCntPower(reg.size);
      AlignedLoop(FirstPage(reg), c, Pow2(c));
    } else {
      PgCntBelowPage(reg.size);
    }
  }

  // ----- regions that the kernel passes and that are not placed

  /** Two pages from an odd page on: the second one is left unmapped. */
  lemma OddRegionMissesPage(reg: MmReg)
    requires InWindow(reg) && PAGE < reg.size <= 2 * PAGE && FirstPage(reg) % 2 == 1
    ensures !Placed(reg) && FirstPage(reg) + 1 !in RegionMap(reg)
  {
    TwoPages(reg.size);
    OddLoop(FirstPage(reg), 2);
  }

  lemma OddLoop(q: nat, n: nat)
    requires q % 2 == 1 && n == 2
    ensures q + 1 !in LoopMap(map[], q, n)
  {
    if q + 1 in LoopMap(map[], q, n) {
      var i := LoopMapFrom(q, n, q + 1);
      OddWord(q, i);
    }
  }

  lemma OddWord(q: nat, i: nat)
    requires q % 2 == 1 && i < 2
    ensures LoopWord(q, i) != q + 1
  {
    if i == 0 { OrZero(q); } else { OrOne(q); }
  }

  lemma TwoPages(size: Word)
    requires PAGE < size <= 2 * PAGE
    ensures PgCnt(size) == 2
  {
    var c := PgCntPower(size);
    assert Pow2(1) == 2;
  }

  /** The table region, at an odd MiB as `vexpress_init` may compute it, is one of the regions it
      maps, and is not placed: what lies in its second MiB gets the frames of the first. */
  lemma TableRegionMismapped(reg: MmReg, t: nat)
    requires InWindow(reg) && reg.base % 0x10_0000 == 0 && reg.base % 0x20_0000 != 0
    requires 0x10_0000 < reg.size <= 0x20_0000 && t < 256
    ensures !Placed(reg)
    ensures var q := FirstPage(reg);
            q + 256 + t in RegionMap(reg) && RegionMap(reg)[q + 256 + t] == q + t
  {
    hide PgCnt, LoopMap;
    HalfThousandPages(reg.size);
    OddFirstPage(reg.base - KP_START);
    OddMegabyteLoop(FirstPage(reg), PgCnt(reg.size), t);
  }

  lemma OddFirstPage(offset: nat)
    requires offset % 0x10_0000 == 0 && offset % 0x20_0000 != 0
    ensures offset / PAGE % 256 == 0 && offset / PAGE / 256 % 2 == 1 && offset / PAGE % 512 != 0
  {
    var q := HalfMultiple(offset);
    DivModUnique(offset, PAGE, 512 * q + 256, 0);
    OddHalf(512 * q + 256, q);
  }

  lemma HalfMultiple(offset: nat) returns (q: nat)
    requires offset % 0x10_0000 == 0 && offset % 0x20_0000 != 0
    ensures offset == 0x20_0000 * q + 0x10_0000
  {
    q := offset / 0x20_0000;
  }

  lemma OddHalf(n: nat, q: nat)
    requires n == 512 * q + 256
    ensures n % 256 == 0 && n / 256 % 2 == 1 && n % 512 != 0
  {
  }

  lemma OddMegabyteLoop(q: nat, n: nat, t: nat)
    requires q % 256 == 0 && q / 256 % 2 == 1 && n == 512 && t < 256
    ensures q + 256 + t in LoopMap(map[], q, n) && LoopMap(map[], q, n)[q + 256 + t] == q + t
  {
    hide LoopMap, LoopWord, Or;
    var i := 256 + t;
    OddMegabyteWord(q, i);
    forall k | i < k < n ensures LoopWord(q, k) != LoopWord(q, i) {
      OddMegabyteWord(q, k);
    }
    LoopMapKeeps(q, n, i);
  }

  lemma OddMegabyteWord(q: nat, i: nat)
    requires q % 256 == 0 && q / 256 % 2 == 1 && i < 512
    ensures Or(q, i) == q + i % 256 && LoopWord(q, i) == q + 256 * (i / 256) + i % 256
  {
    hide Or;
    assert Pow2(8) == 256 by { PowersOfTwo(); }
    OrOddUnit(q, i, 8);
    WordInMegabyte(q, i);
  }

  lemma WordInMegabyte(q: nat, i: nat)
    requires q % 256 == 0
    ensures 256 * ((q + i) / 256) + (q + i % 256) % 256 == q + 256 * (i / 256) + i % 256
  {
  }

  /** Such a region: an image that ends below 1 MiB puts the tables at 0x6010_0000. */
  lemma FirstMegabyteImage(reg: MmReg)
    requires reg.base == 0x6010_0000 && reg.size == 0x20_0000
    ensures InWindow(reg) && 0x200 in RegionMap(reg) && RegionMap(reg)[0x200] == 0x100
  {
    hide PgCnt, LoopMap;
    TableRegionMismapped(reg, 0);
  }

  lemma HalfThousandPages(size: Word)
    requires 0x10_0000 < size <= 0x20_0000
    ensures PgCnt(size) == 512
  {
    hide PgCnt;
    var c := PgCntPower(size);
    assert Pow2(8) == 256 by { PowersOfTwo(); }
    assert Pow2(9) == 2 * Pow2(8);
    if c < 8 {
      Pow2Monotonic(c, 8);
    } else if c > 10 {
      Pow2Monotonic(9, c - 1);
    }
  }

  // ----- lists of regions

  ghost predicate AllInWindow(regs: seq<MmReg>) {
    forall g :: g in regs ==> InWindow(g)
  }

  /** What the calls for a list of regions map, later ones last. */
  ghost function MapOfAll(regs: seq<MmReg>): map<nat, nat>
    requires AllInWindow(regs)
  {
    if regs == [] then map[] else MapOfAll(regs[..|regs| - 1]) + RegionMap(regs[|regs| - 1])
  }

  /** Some call gives page `j` its own frame, and every later one that writes its word does so too. */
  ghost predicate Kept(regs: seq<MmReg>, j: nat)
    requires AllInWindow(regs)
  {
    exists k :: 0 <= k < |regs| && Reaches(regs[k], j) && Undisturbed(regs, k + 1, j)
  }

  ghost predicate Undisturbed(regs: seq<MmReg>, k: nat, j: nat)
    requires AllInWindow(regs)
  {
    forall l :: k <= l < |regs| && j in RegionMap(regs[l]) ==> Reaches(regs[l], j)
  }

  /** The pages that have their own frame after all the calls. */
  lemma {:induction false} RegionsOwnExactly(regs: seq<MmReg>, j: nat)
    requires AllInWindow(regs)
    ensures Own(MapOfAll(regs), j) <==> Kept(regs, j)
    decreases |regs|
  {
    hide Reaches, RegionMap;
    if regs != [] {
      var init, last := regs[..|regs| - 1], regs[|regs| - 1];
      RegionsOwnExactly(init, j);
      RegionOwnsExactly(last, j);
      KeptExtends(init, last, j);
      assert regs == init + [last];
    }
  }

  lemma KeptExtends(init: seq<MmReg>, last: MmReg, j: nat)
    requires AllInWindow(init) && AllInWindow(init + [last])
    ensures Kept(init + [last], j) <==>
            if j in RegionMap(last) then Reaches(last, j) else Kept(init, j)
  {
    hide Reaches, RegionMap;
    var regs := init + [last];
    RegionOwnsExactly(last, j);
    if j in RegionMap(last) && Reaches(last, j) {
      assert Reaches(regs[|init|], j) && Undisturbed(regs, |init| + 1, j);
    }
    if j !in RegionMap(last) && Kept(init, j) {
      var k :| 0 <= k < |init| && Reaches(init[k], j) && Undisturbed(init, k + 1, j);
      assert Reaches(regs[k], j) && Undisturbed(regs, k + 1, j);
    }
    if Kept(regs, j) {
      var k :| 0 <= k < |regs| && Reaches(regs[k], j) && Undisturbed(regs, k + 1, j);
      if k < |init| {
        assert Undisturbed(init, k + 1, j) by {
          forall l | k + 1 <= l < |init| && j in RegionMap(init[l]) ensures Reaches(init[l], j) {
            assert init[l] == regs[l];
          }
        }
        assert Reaches(init[k], j);
        assert j in RegionMap(regs[|init|]) ==> Reaches(regs[|init|], j);
      }
    }
  }

  /** A byte of a placed region that its count holds is in such a page, unless a region that is not
      placed writes over it. */
  lemma RegionsCovered(regs: seq<MmReg>, g: MmReg, p: Word)
    requires AllInWindow(regs) && g in regs && Placed(g) && g.base % PAGE + g.size <= PAGE * PgCnt(g.size)
    requires g.base <= p < g.base + g.size && forall h :: h in regs ==> Placed(h) || PageOf(p) !in RegionMap(h)
    ensures Kept(regs, PageOf(p))
  {
    hide Reaches, RegionMap, PgCnt;
    var j := PageOf(p);
    RegionMappedExactly(g);
    RegionOwnsExactly(g, j);
    forall h | h in regs && j in RegionMap(h) ensures Reaches(h, j) {
      PlacedIsIdentity(h);
      RegionOwnsExactly(h, j);
    }
    var k :| 0 <= k < |regs| && regs[k] == g;
    assert Undisturbed(regs, k + 1, j);
  }

  /** With placed regions only, the calls map pages to their own frames and nothing else. */
  lemma {:induction false} PlacedRegionsIdentity(regs: seq<MmReg>)
    requires AllInWindow(regs) && forall g :: g in regs ==> Placed(g)
    ensures forall j :: j in MapOfAll(regs) ==> MapOfAll(regs)[j] == j
    decreases |regs|
  {
    if regs != [] {
      var init, last := regs[..|regs| - 1], regs[|regs| - 1];
      PlacedRegionsIdentity(init);
      PlacedIsIdentity(last);
    }
  }
}
