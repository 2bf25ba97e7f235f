/** Whole-run properties of the kernel heap, over every list of `kmalloc` and `kfree` calls. */
module HeapRuns {
  import opened Bits
  import opened Types
  import opened HeapBlocks

  datatype Op = Malloc(n: Word) | Free(ptr: nat)

  /** The list that `heap_init` sets up: one free block filling the page. */
  function Initial(base: nat): seq<Block> {
    [Block(base, PAGE - HEADER, true)]
  }

  ghost function Step(s: seq<Block>, op: Op): seq<Block> {
    match op
    case Malloc(n) => Kmalloc(s, n).0
    case Free(ptr) => Kfree(s, ptr)
  }

  ghost function Run(s: seq<Block>, ops: seq<Op>): seq<Block>
    decreases |ops|
  {
    if ops == [] then s else Run(Step(s, ops[0]), ops[1..])
  }

  // ----- canonical form

  /** A canonical tiling is determined by its live blocks alone. */
  lemma {:induction false} CanonicalUnique(s: seq<Block>, t: seq<Block>, start: nat, end: nat)
    requires start % 16 == 0
    requires Tiles(s, start, end) && Canonical(s)
    requires Tiles(t, start, end) && Canonical(t)
    requires LiveBlocks(s) == LiveBlocks(t)
    ensures s == t
    decreases |s|
  {
    hide Tiles, Canonical, LiveBlocks;
    EmptyTiling(s, start, end);
    EmptyTiling(t, start, end);
    if s != [] && t != [] {
      SameHead(s, t, start, end);
      TailTiles(s, start, end);
      TailTiles(t, start, end);
      TailLive(s, start, end);
      TailLive(t, start, end);
      TailCanonical(s);
      TailCanonical(t);
      CanonicalUnique(s[1..], t[1..], s[0].End(), end);
      assert s == [s[0]] + s[1..] && t == [t[0]] + t[1..];
    }
  }

  lemma EmptyTiling(s: seq<Block>, start: nat, end: nat)
    requires Tiles(s, start, end)
    ensures s == [] <==> start == end
  {
    TilesOrdered(s, start, end);
  }

  lemma TailTiles(s: seq<Block>, start: nat, end: nat)
    requires s != [] && Tiles(s, start, end) && start % 16 == 0
    ensures Tiles(s[1..], s[0].End(), end) && s[0].End() % 16 == 0
  {
    EndAligned(start, s[0].size);
  }

  lemma EndAligned(start: nat, size: nat)
    requires start % 16 == 0 && size % 16 == 0
    ensures (start + 16 + size) % 16 == 0
  {
    SumAligned(start, size, 16);
  }

  lemma TailCanonical(s: seq<Block>)
    requires s != [] && Canonical(s)
    ensures Canonical(s[1..])
  {
    forall i | 0 < i < |s| - 1 ensures !FreePair(s[1..], i) {
      assert !FreePair(s, i + 1);
    }
  }

  lemma TailLive(s: seq<Block>, start: nat, end: nat)
    requires start % 16 == 0
    requires s != [] && Tiles(s, start, end)
    ensures LiveBlocks(s[1..]) == LiveBlocks(s) - {s[0]}
  {
    TilesOrdered(s, start, end);
    forall b | b in LiveBlocks(s) - {s[0]} ensures b in LiveBlocks(s[1..]) {
      var i :| 0 <= i < |s| && s[i] == b;
      assert s[1..][i - 1] == b;
    }
    assert forall i :: 0 < i < |s| ==> s[i].addr > s[0].addr;
  }

  /** The first live block of a canonical tiling is at index 0 or, behind a free block, 1. */
  lemma FirstLive(s: seq<Block>, start: nat, end: nat)
    requires start % 16 == 0
    requires s != [] && Tiles(s, start, end) && Canonical(s)
    ensures !s[0].free ==> s[0] in LiveBlocks(s)
    ensures s[0].free && |s| == 1 ==> LiveBlocks(s) == {}
    ensures s[0].free && |s| > 1 ==> s[1] in LiveBlocks(s) && s[1].addr == s[0].End()
    ensures s[0].free && |s| > 1 ==> forall b :: b in LiveBlocks(s) ==> s[1].addr <= b.addr
    ensures forall b :: b in LiveBlocks(s) && b.addr == start ==> b == s[0]
  {
    TilesOrdered(s, start, end);
    if s[0].free && |s| > 1 {
      assert !FreePair(s, 1);
      assert forall i :: 1 < i < |s| ==> s[1].addr <= s[i].addr;
    }
    assert forall i :: 0 < i < |s| ==> s[0].addr < s[i].addr;
  }

  lemma SameHead(s: seq<Block>, t: seq<Block>, start: nat, end: nat)
    requires start % 16 == 0
    requires s != [] && Tiles(s, start, end) && Canonical(s)
    requires t != [] && Tiles(t, start, end) && Canonical(t)
    requires LiveBlocks(s) == LiveBlocks(t)
    ensures s[0] == t[0]
  {
    TilesOrdered(s, start, end);
    TilesOrdered(t, start, end);
    FirstLive(s, start, end);
    FirstLive(t, start, end);
  }

  // ----- best fit

  /** A best fit exists as soon as any block fits, and there is only one. */
  lemma FitComplete(s: seq<Block>, size: nat)
    ensures Fit(s, size).Some? <==> HasFit(s, size)
  {
    if HasFit(s, size) {
      var k: nat := FindFit(s, size);
    }
  }

  lemma FitUnique(s: seq<Block>, size: nat, k: nat)
    requires IsBestFit(s, size, k)
    ensures Fit(s, size) == Some(k)
  {
    var j := Fit(s, size).value;
  }

  lemma {:induction false} FindFit(s: seq<Block>, size: nat) returns (k: nat)
    requires HasFit(s, size)
    ensures IsBestFit(s, size, k)
    decreases |s|
  {
    var n := |s| - 1;
    var t := s[..n];
    if HasFit(t, size) {
      k := FindFit(t, size);
      if !ExactFit(s[k], size) {
        if ExactFit(s[n], size) || (Splittable(s[n], size) && s[n].size < s[k].size) {
          k := n;
        }
      }
    } else {
      k := n;
    }
    assert forall i :: 0 <= i < n ==> s[i] == t[i];
    assert HasFit(t, size) || forall i :: 0 <= i < n ==> !ExactFit(t[i], size) && !Splittable(t[i], size);
  }

  // ----- every run

  lemma RoundedPower(n: Word) returns (k: nat)
    requires n <= 0x8000_0000
    ensures 4 <= k <= 31 && Rounded(n) == Pow2(k) && n <= Pow2(k)
    ensures k == 4 || Pow2(k - 1) < n
  {
    if n < MIN_ALLOC {
      k := 4;
    } else {
      k := TopBitBetween(n);
      HighestBitAt(n, k);
      PowerOfTwoAt(n, k);
      if n != Pow2(k) {
        Doubling(n, k);
        k := k + 1;
      }
    }
  }

  lemma TopBitBetween(n: Word) returns (k: nat)
    requires MIN_ALLOC <= n <= 0x8000_0000
    ensures 4 <= k <= 31 && Pow2(k) <= n < Pow2(k + 1)
  {
    assert n < Pow2(32) by { PowersOfTwo(); }
    k := TopBitExists(n, 32);
    assert Pow2(4) == 16;
    if k < 3 { Pow2Monotonic(k + 1, 4); }
  }

  lemma Doubling(n: Word, k: nat)
    requires k <= 31 && Pow2(k) < n <= 0x8000_0000
    ensures k < 31 && (Pow2(k) * 2) % WORD_LIMIT == Pow2(k + 1) && Pow2(k + 1) == 2 * Pow2(k)
  {
    assert Pow2(31) == 0x8000_0000 by { PowersOfTwo(); }
    Pow2Monotonic(k, 31);
  }

  /** kmalloc reserves the least power of two that is at least n and at least 16 exactly when n
      is at most 2^31; above that the doubling wraps and it reserves nothing. */
  lemma RoundedMeaning(n: Word)
    ensures n <= 0x8000_0000 <==> Rounded(n) >= n
    ensures n > 0x8000_0000 ==> Rounded(n) == 0
    ensures n <= 0x8000_0000 ==>
              && Rounded(n) >= 16
              && (exists k: nat :: Rounded(n) == Pow2(k))
              && forall j: nat :: Pow2(j) >= n && Pow2(j) >= 16 ==> Rounded(n) <= Pow2(j)
  {
    PowersOfTwo();
    if n <= 0x8000_0000 {
      var k := RoundedPower(n);
      if k > 4 { Pow2Monotonic(4, k); }
      forall j: nat | Pow2(j) >= n && Pow2(j) >= MIN_ALLOC ensures Rounded(n) <= Pow2(j) {
        if j < k - 1 { Pow2Monotonic(j, k - 1); }
        if j > k { Pow2Monotonic(k, j); }
        assert Pow2(k) == 2 * Pow2(k - 1);
      }
    } else {
      HighestBitAt(n, 31);
      PowerOfTwoAt(n, 31);
    }
  }

  lemma RoundedMultiple(n: Word)
    ensures Rounded(n) % 16 == 0
  {
    if n <= 0x8000_0000 {
      var k := RoundedPower(n);
      PowerMultiple(k);
    } else {
      RoundedMeaning(n);
    }
  }

  lemma PowerMultiple(k: nat)
    requires k >= 4
    ensures Pow2(k) % 16 == 0
  {
    PowersOfTwo();
    PowDivides(4, k);
  }

  // ----- single steps

  /** A step keeps the invariant. */
  lemma StepInvariant(s: seq<Block>, op: Op, base: nat)
    requires Invariant(s, base) && base % 16 == 0
    ensures Invariant(Step(s, op), base)
  {
    match op
    case Malloc(n) =>
      var size := Rounded(n);
      RoundedMultiple(n);
      if n != 0 && Fit(s, size).Some? {
        CarveTiles(s, Fit(s, size).value, size, base, base + PAGE);
        CarveCanonical(s, Fit(s, size).value, size);
      }
    case Free(ptr) =>
      if IsLive(s, ptr) {
        ReleaseTiles(s, LiveIndex(s, ptr), base, base + PAGE);
        ReleaseCanonical(s, LiveIndex(s, ptr));
      }
  }

  /** `kmalloc(n)` answers NULL exactly when n is 0 or no free block is the rounded size or large
      enough to split. Otherwise it adds one live block of the rounded size, 16-byte aligned,
      inside the page and clear of every other live block, and moves none of the others. */
  lemma KmallocEffect(s: seq<Block>, n: Word, base: nat)
    requires Invariant(s, base) && base % 16 == 0
    ensures Kmalloc(s, n).1 == 0 <==> n == 0 || !HasFit(s, Rounded(n))
    ensures Kmalloc(s, n).1 == 0 ==> Kmalloc(s, n).0 == s
    ensures Kmalloc(s, n).1 != 0 ==>
              var b := Block(Kmalloc(s, n).1 - HEADER, Rounded(n), false);
              && LiveBlocks(Kmalloc(s, n).0) == LiveBlocks(s) + {b}
              && b.addr % 16 == 0 && base <= b.addr && b.End() <= base + PAGE
              && forall c :: c in LiveBlocks(s) ==> c.End() <= b.addr || b.End() <= c.addr
  {
    var size := Rounded(n);
    FitComplete(s, size);
    if n != 0 && HasFit(s, size) {
      var k := Fit(s, size).value;
      RoundedMultiple(n);
      CarveLive(s, k, size);
      CarveApart(s, k, size, base, base + PAGE);
    }
  }

  /** When NULL is answered: no free block has the rounded size or exceeds it by more than a header. */
  lemma KmallocFails(s: seq<Block>, n: Word)
    ensures Kmalloc(s, n).1 == 0 <==>
            n == 0 || forall i :: 0 <= i < |s| && s[i].free ==> s[i].size != Rounded(n) && s[i].size <= Rounded(n) + 16
  {
    FitComplete(s, Rounded(n));
  }

  /** Where the payload comes from otherwise: the tail of a free block, which is the first one of
      exactly the rounded size or, when there is none, the lowest of the smallest blocks that
      exceed it by more than a header. */
  lemma KmallocTakes(s: seq<Block>, n: Word) returns (k: nat)
    requires Kmalloc(s, n).1 != 0
    ensures k < |s| && s[k].free && Kmalloc(s, n).1 + Rounded(n) == s[k].addr + 16 + s[k].size
    ensures s[k].size == Rounded(n) || s[k].size > Rounded(n) + 16
    ensures forall i :: 0 <= i < |s| && s[i].free && s[i].size == Rounded(n) ==> s[k].size == Rounded(n) && k <= i
    ensures forall i :: 0 <= i < |s| && s[i].free && s[i].size > Rounded(n) + 16 && s[k].size != Rounded(n) ==>
                          s[k].size < s[i].size || (s[k].size == s[i].size && k <= i)
  {
    k := Fit(s, Rounded(n)).value;
  }

  lemma CarveApart(s: seq<Block>, k: nat, size: nat, start: nat, end: nat)
    requires Tiles(s, start, end) && start % 16 == 0 && size % 16 == 0
    requires k < |s| && (ExactFit(s[k], size) || Splittable(s[k], size))
    ensures var b := CarvedBlock(s[k], size);
            && b.addr % 16 == 0 && start <= b.addr && b.End() <= end
            && forall c :: c in LiveBlocks(s) ==> c.End() <= b.addr || b.End() <= c.addr
  {
    CarveAligned(s, k, size, start, end);
    TilesOrdered(s, start, end);
    forall c | c in LiveBlocks(s)
      ensures c.End() <= s[k].addr || s[k].End() <= c.addr
    {
      var i :| 0 <= i < |s| && s[i] == c;
      if i < k {
        assert s[i].End() <= s[k].addr;
      } else {
        assert s[k].End() <= s[i].addr;
      }
    }
  }

  /** `kfree(ptr)` removes exactly the live block with that payload, if there is one. */
  lemma KfreeEffect(s: seq<Block>, ptr: nat, base: nat)
    requires Invariant(s, base) && base % 16 == 0
    ensures LiveBlocks(Kfree(s, ptr)) == set b | b in LiveBlocks(s) && b.Payload() != ptr
  {
    if IsLive(s, ptr) {
      var k := LiveIndex(s, ptr);
      ReleaseLive(s, k, base, base + PAGE);
      TilesOrdered(s, base, base + PAGE);
      forall b | b in LiveBlocks(s) && b.Payload() == ptr ensures b == s[k] {
        var i :| 0 <= i < |s| && s[i] == b;
        assert !(i < k);
        assert !(k < i);
      }
    } else {
      forall b | b in LiveBlocks(s) ensures b.Payload() != ptr {
        var i :| 0 <= i < |s| && s[i] == b;
      }
    }
  }

  /** Two frees commute. */
  lemma FreesCommute(s: seq<Block>, p: nat, q: nat, base: nat)
    requires Invariant(s, base) && base % 16 == 0
    ensures Kfree(Kfree(s, p), q) == Kfree(Kfree(s, q), p)
  {
    var sp, sq := Kfree(s, p), Kfree(s, q);
    StepInvariant(s, Free(p), base);
    StepInvariant(s, Free(q), base);
    StepInvariant(sp, Free(q), base);
    StepInvariant(sq, Free(p), base);
    KfreeEffect(s, p, base);
    KfreeEffect(s, q, base);
    KfreeEffect(sp, q, base);
    KfreeEffect(sq, p, base);
    CanonicalUnique(Kfree(sp, q), Kfree(sq, p), base, base + PAGE);
  }

  /** Freeing a pointer twice is the same as freeing it once. */
  lemma DoubleFreeIsIgnored(s: seq<Block>, p: nat, base: nat)
    requires Invariant(s, base) && base % 16 == 0
    ensures Kfree(Kfree(s, p), p) == Kfree(s, p)
  {
    var t := Kfree(s, p);
    KfreeEffect(s, p, base);
    forall k | 0 <= k < |t| && !t[k].free ensures t[k].Payload() != p {
      assert t[k] in LiveBlocks(t);
    }
  }

  /** Freeing what kmalloc returned restores the block list, split or not. */
  lemma FreeUndoesMalloc(s: seq<Block>, n: Word, base: nat)
    requires Invariant(s, base) && base % 16 == 0 && base > 0
    ensures Kfree(Kmalloc(s, n).0, Kmalloc(s, n).1) == s
  {
    var (t, ptr) := Kmalloc(s, n);
    StepInvariant(s, Malloc(n), base);
    StepInvariant(t, Free(ptr), base);
    UndoLive(s, n, base);
    CanonicalUnique(Kfree(t, ptr), s, base, base + PAGE);
  }

  lemma UndoLive(s: seq<Block>, n: Word, base: nat)
    requires Invariant(s, base) && base % 16 == 0 && base > 0
    requires Invariant(Kmalloc(s, n).0, base)
    ensures LiveBlocks(Kfree(Kmalloc(s, n).0, Kmalloc(s, n).1)) == LiveBlocks(s)
  {
    var (t, ptr) := Kmalloc(s, n);
    KmallocEffect(s, n, base);
    KfreeEffect(t, ptr, base);
    if ptr == 0 {
      NullIsNotLive(s, base);
    } else {
      var b := Block(ptr - HEADER, Rounded(n), false);
      forall c | c in LiveBlocks(s) ensures c.Payload() != b.Payload() {
      }
    }
  }

  lemma NullIsNotLive(s: seq<Block>, base: nat)
    requires Tiles(s, base, base + PAGE) && base > 0
    ensures forall b :: b in LiveBlocks(s) ==> b.Payload() != 0
  {
    TilesOrdered(s, base, base + PAGE);
  }

  // ----- whole runs

  /** After every run from `heap_init` the blocks tile the page, so that headers and payloads
      always add up to 4096 bytes, and no two free blocks are neighbours. */
  lemma {:induction false} RunInvariant(s: seq<Block>, ops: seq<Op>, base: nat)
    requires Invariant(s, base) && base % 16 == 0
    ensures Invariant(Run(s, ops), base)
    ensures Extent(Run(s, ops)) == PAGE
    decreases |ops|
  {
    if ops == [] {
      TilesExtent(s, base, base + PAGE);
    } else {
      StepInvariant(s, ops[0], base);
      RunInvariant(Step(s, ops[0]), ops[1..], base);
    }
  }

  lemma InitialInvariant(base: nat)
    requires base % 16 == 0
    ensures Invariant(Initial(base), base)
    ensures LiveBlocks(Initial(base)) == {} && AtLeast16(Initial(base))
  {
    assert Initial(base)[1..] == [];
  }

  /** The heap has no memory of how it got where it is: two runs that end with the same live
      blocks end with the same block list. */
  lemma RunsWithSameLiveAgree(ops1: seq<Op>, ops2: seq<Op>, base: nat)
    requires base % 16 == 0
    requires LiveBlocks(Run(Initial(base), ops1)) == LiveBlocks(Run(Initial(base), ops2))
    ensures Run(Initial(base), ops1) == Run(Initial(base), ops2)
  {
    InitialInvariant(base);
    RunInvariant(Initial(base), ops1, base);
    RunInvariant(Initial(base), ops2, base);
    CanonicalUnique(Run(Initial(base), ops1), Run(Initial(base), ops2), base, base + PAGE);
  }

  ghost function Frees(ptrs: seq<nat>): seq<Op> {
    seq(|ptrs|, i requires 0 <= i < |ptrs| => Free(ptrs[i]))
  }

  /** Freeing pointers one after the other removes exactly their blocks. */
  lemma {:induction false} RunFrees(s: seq<Block>, ptrs: seq<nat>, base: nat)
    requires Invariant(s, base) && base % 16 == 0
    ensures LiveBlocks(Run(s, Frees(ptrs))) == set b | b in LiveBlocks(s) && b.Payload() !in ptrs
    decreases |ptrs|
  {
    if ptrs != [] {
      var t := Kfree(s, ptrs[0]);
      assert Frees(ptrs)[1..] == Frees(ptrs[1..]);
      StepInvariant(s, Free(ptrs[0]), base);
      KfreeEffect(s, ptrs[0], base);
      RunFrees(t, ptrs[1..], base);
      assert ptrs == [ptrs[0]] + ptrs[1..];
    }
  }

  /** After any run, freeing every live block, in whatever order, gives back the single
      4080-byte block of `heap_init`. */
  lemma FreeAllRestoresPage(ops: seq<Op>, ptrs: seq<nat>, base: nat)
    requires base % 16 == 0
    requires forall b :: b in LiveBlocks(Run(Initial(base), ops)) ==> b.Payload() in ptrs
    ensures Run(Run(Initial(base), ops), Frees(ptrs)) == Initial(base)
  {
    var s := Run(Initial(base), ops);
    InitialInvariant(base);
    RunInvariant(Initial(base), ops, base);
    RunFrees(s, ptrs, base);
    RunInvariant(s, Frees(ptrs), base);
    CanonicalUnique(Run(s, Frees(ptrs)), Initial(base), base, base + PAGE);
  }

  /** A block stays live, at the same address and with the same size, through any run that does
      not free its payload pointer. */
  lemma {:induction false} LiveBlocksStay(s: seq<Block>, ops: seq<Op>, b: Block, base: nat)
    requires Invariant(s, base) && base % 16 == 0
    requires b in LiveBlocks(s) && Free(b.Payload()) !in ops
    ensures b in LiveBlocks(Run(s, ops))
    decreases |ops|
  {
    if ops != [] {
      var op := ops[0];
      StepInvariant(s, op, base);
      match op {
        case Malloc(n) => KmallocEffect(s, n, base);
        case Free(ptr) => KfreeEffect(s, ptr, base);
      }
      LiveBlocksStay(Step(s, op), ops[1..], b, base);
    }
  }

  ghost predicate AtLeast16(s: seq<Block>) {
    forall b :: b in s ==> b.size >= 16
  }

  /** A call leaves no block of fewer than 16 bytes behind exactly when it asks for at most 2^31 or
      gets nothing. */
  lemma SplitsKeepPayloads(s: seq<Block>, n: Word, base: nat)
    requires Invariant(s, base) && base % 16 == 0 && AtLeast16(s)
    ensures AtLeast16(Kmalloc(s, n).0) <==> n <= 0x8000_0000 || Kmalloc(s, n).1 == 0
  {
    RoundedMeaning(n);
    RoundedMultiple(n);
    if Kmalloc(s, n).1 != 0 {
      var k := Fit(s, Rounded(n)).value;
      BlockAligned(s, k, base, base + PAGE);
      CarvedPayloads(s, k, Rounded(n));
    }
  }

  /** What is left of a block that is split holds at least 16 bytes. */
  lemma CarvedPayloads(s: seq<Block>, k: nat, size: nat)
    requires k < |s| && (ExactFit(s[k], size) || Splittable(s[k], size))
    requires AtLeast16(s) && s[k].size % 16 == 0 && size % 16 == 0
    ensures AtLeast16(Carve(s, k, size)) <==> size >= 16
  {
    var t := Carve(s, k, size);
    if s[k].size != size {
      RestOfBlock(s[k].size, size);
      assert t[k + 1].size == size;
    } else {
      assert t[k].size == size;
    }
    forall i | 0 <= i < |t| ensures t[i].size >= 16 || t[i].size == size {
      if i < k {
        assert t[i] == s[i];
      } else if i > k + 1 || (i > k && s[k].size == size) {
        assert t[i] in s;
      }
    }
  }

  lemma RestOfBlock(whole: nat, size: nat)
    requires whole % 16 == 0 && size % 16 == 0 && whole > size + 16
    ensures whole - size - 16 >= 16
  {
  }

  lemma ReleasePayloads(s: seq<Block>, k: nat)
    requires k < |s| && AtLeast16(s)
    ensures AtLeast16(Release(s, k))
  {
  }

  /** No sequence of calls fragments the page below 16 bytes: when every request is at most 2^31,
      every block of every state reached, free or live, has at least 16 payload bytes. */
  lemma {:induction false} PayloadsAtLeast16(s: seq<Block>, ops: seq<Op>, base: nat)
    requires Invariant(s, base) && base % 16 == 0 && AtLeast16(s)
    requires forall op :: op in ops && op.Malloc? ==> op.n <= 0x8000_0000
    ensures AtLeast16(Run(s, ops))
    decreases |ops|
  {
    if ops != [] {
      var op := ops[0];
      StepInvariant(s, op, base);
      match op {
        case Malloc(n) =>
          assert op in ops;
          SplitsKeepPayloads(s, n, base);
        case Free(ptr) => if IsLive(s, ptr) { ReleasePayloads(s, LiveIndex(s, ptr)); }
      }
      PayloadsAtLeast16(Step(s, op), ops[1..], base);
    }
  }

  ghost predicate PowerSized(b: Block) {
    b.size >= 16 && exists k: nat :: b.size == Pow2(k)
  }

  /** When every request of a run is at most 2^31, every live payload is a power of two of at
      least 16 bytes. */
  lemma {:induction false} LivePayloadsArePowers(s: seq<Block>, ops: seq<Op>, base: nat)
    requires Invariant(s, base) && base % 16 == 0
    requires forall b :: b in LiveBlocks(s) ==> PowerSized(b)
    requires forall op :: op in ops && op.Malloc? ==> op.n <= 0x8000_0000
    ensures forall b :: b in LiveBlocks(Run(s, ops)) ==> PowerSized(b)
    decreases |ops|
  {
    if ops != [] {
      var op := ops[0];
      StepInvariant(s, op, base);
      match op {
        case Malloc(n) =>
          assert op in ops;
          KmallocEffect(s, n, base);
          RoundedMeaning(n);
        case Free(ptr) => KfreeEffect(s, ptr, base);
      }
      LivePayloadsArePowers(Step(s, op), ops[1..], base);
    }
  }

  // ----- fragmentation

  ghost function FreeCount(s: seq<Block>): nat {
    if s == [] then 0 else (if s[0].free then 1 else 0) + FreeCount(s[1..])
  }

  ghost function FreePayload(s: seq<Block>): nat {
    if s == [] then 0 else (if s[0].free then s[0].size else 0) + FreePayload(s[1..])
  }

  /** In canonical form live blocks separate the free ones. */
  lemma {:induction false} FreeBlocksAreSeparated(s: seq<Block>, start: nat, end: nat)
    requires start % 16 == 0 && Tiles(s, start, end) && Canonical(s)
    ensures FreeCount(s) <= |LiveBlocks(s)| + (if s != [] && s[0].free then 1 else 0)
    decreases |s|
  {
    if s != [] {
      TailLive(s, start, end);
      TailCanonical(s);
      TilesOrdered(s, start, end);
      FreeBlocksAreSeparated(s[1..], s[0].End(), end);
      if s[0].free {
        if |s| > 1 {
          assert !FreePair(s, 1);
        }
        assert LiveBlocks(s[1..]) == LiveBlocks(s);
      } else {
        assert |LiveBlocks(s[1..])| == |LiveBlocks(s)| - 1;
      }
    }
  }

  lemma {:induction false} FreePayloadBound(s: seq<Block>, m: nat)
    requires forall i :: 0 <= i < |s| && s[i].free ==> s[i].size <= m
    ensures FreePayload(s) <= FreeCount(s) * m
  {
    if s != [] {
      FreePayloadBound(s[1..], m);
      assert s[0].free ==> FreeCount(s) * m == m + FreeCount(s[1..]) * m;
    }
  }

  /** Fragmentation bound: when kmalloc(n) fails with L live blocks, there are at most L + 1 free
      blocks and none exceeds the rounded size by more than one header. */
  lemma FragmentationBound(s: seq<Block>, n: Word, base: nat)
    requires Invariant(s, base) && base % 16 == 0
    requires n > 0 && Kmalloc(s, n).1 == 0
    ensures FreeCount(s) <= |LiveBlocks(s)| + 1
    ensures forall b :: b in s && b.free ==> b.size != Rounded(n) && b.size <= Rounded(n) + 16
    ensures FreePayload(s) <= (|LiveBlocks(s)| + 1) * (Rounded(n) + 16)
  {
    var m := Rounded(n) + 16;
    KmallocFails(s, n);
    FreeBlocksAreSeparated(s, base, base + PAGE);
    FreePayloadBound(s, m);
    MulMonotonic(FreeCount(s), |LiveBlocks(s)| + 1, m);
  }
}
