/** The page behind test.c's allocator, seen as a list of blocks.

    A block is one `struct mm_entry` header of 16 bytes followed by its payload. This module
    gives the effect of `kmalloc` and `kfree` on the block list; module KernelHeap shows that
    the code, which edits linked headers inside the page, has exactly this effect.
 */
module HeapBlocks {
  import opened Bits
  import opened Types

  const HEADER := 16
  const PAGE := 4096
  const MIN_ALLOC := 16

  /** `addr` is the address of the header, `size` the number of payload bytes. */
  datatype Block = Block(addr: nat, size: nat, free: bool) {
    function End(): nat {
      addr + HEADER + size
    }

    function Payload(): nat {
      addr + HEADER
    }
  }

  // ----- the invariant

  /** The blocks cover start..end exactly: each one ends where the next header starts. */
  ghost predicate Tiles(s: seq<Block>, start: nat, end: nat) {
    if s == [] then start == end
    else
      && s[0].addr == start
      && s[0].size % 16 == 0
      && Tiles(s[1..], s[0].End(), end)
  }

  ghost predicate Adjacent(s: seq<Block>, i: int)
    requires 0 < i < |s|
  {
    s[i].addr == s[i - 1].End()
  }

  /** No two neighbouring blocks are both free. */
  ghost predicate Canonical(s: seq<Block>) {
    forall i :: 0 < i < |s| ==> !FreePair(s, i)
  }

  predicate FreePair(s: seq<Block>, i: int)
    requires 0 < i < |s|
  {
    s[i - 1].free && s[i].free
  }

  ghost predicate Invariant(s: seq<Block>, base: nat) {
    Tiles(s, base, base + PAGE) && Canonical(s)
  }

  ghost function LiveBlocks(s: seq<Block>): set<Block> {
    set b | b in s && !b.free
  }

  /** Bytes covered by a list of blocks, headers included. */
  ghost function Extent(s: seq<Block>): nat {
    if s == [] then 0 else HEADER + s[0].size + Extent(s[1..])
  }

  // ----- the operations

  /** kmalloc's size normalisation; doubling a word above 2^31 wraps to 0. */
  function Rounded(n: Word): Word {
    if n < MIN_ALLOC then MIN_ALLOC
    else if !IsPowerOfTwo(n) then (HighestBit(n) * 2) % WORD_LIMIT
    else n
  }

  predicate ExactFit(b: Block, size: nat) {
    b.free && b.size == size
  }

  predicate Splittable(b: Block, size: nat) {
    b.free && b.size > size + HEADER
  }

  /** Block `k` is the first exact fit or, when there is none, the first of the smallest blocks
      that can be split. */
  ghost predicate IsBestFit(s: seq<Block>, size: nat, k: nat) {
    && k < |s|
    && if ExactFit(s[k], size) then
         forall i :: 0 <= i < k ==> !ExactFit(s[i], size)
       else
         && Splittable(s[k], size)
         && (forall i :: 0 <= i < |s| ==> !ExactFit(s[i], size))
         && (forall i :: 0 <= i < |s| && Splittable(s[i], size) ==> s[k].size <= s[i].size)
         && (forall i :: 0 <= i < k && Splittable(s[i], size) ==> s[k].size < s[i].size)
  }

  ghost predicate HasFit(s: seq<Block>, size: nat) {
    exists k :: 0 <= k < |s| && (ExactFit(s[k], size) || Splittable(s[k], size))
  }

  ghost function Fit(s: seq<Block>, size: nat): Option<nat> {
    if k: nat :| IsBestFit(s, size, k) then Some(k) else None
  }

  /** Allocates `size` bytes at the tail of free block `k`. */
  function Carve(s: seq<Block>, k: nat, size: nat): seq<Block>
    requires k < |s| && (ExactFit(s[k], size) || Splittable(s[k], size))
  {
    if s[k].size == size then
      s[k := s[k].(free := false)]
    else
      s[..k] + [s[k].(size := s[k].size - size - HEADER), CarvedBlock(s[k], size)] + s[k + 1..]
  }

  function CarvedBlock(b: Block, size: nat): Block
    requires size <= b.size
  {
    Block(b.addr + b.size - size, size, false)
  }

  /** The effect of `kmalloc(n)`: the new list, and the pointer returned (0 for NULL). */
  ghost function Kmalloc(s: seq<Block>, n: Word): (seq<Block>, nat) {
    if n == 0 then (s, 0)
    else
      match Fit(s, Rounded(n))
      case None => (s, 0)
      case Some(k) => (Carve(s, k, Rounded(n)), CarvedBlock(s[k], Rounded(n)).Payload())
  }

  /** Block `k` swallows block `k + 1`, header included. */
  function Merge(s: seq<Block>, k: nat): seq<Block>
    requires k + 1 < |s|
  {
    s[..k] + [s[k].(size := s[k].size + s[k + 1].size + HEADER)] + s[k + 2..]
  }

  function MergeRight(s: seq<Block>, k: nat): seq<Block>
    requires k < |s|
  {
    if k + 1 < |s| && s[k + 1].free then Merge(s, k) else s
  }

  function MergeLeft(s: seq<Block>, k: nat): seq<Block>
    requires k < |s|
  {
    if k > 0 && s[k - 1].free then Merge(s, k - 1) else s
  }

  /** Frees block `k`: eats the next block if that is free, then is eaten by a free predecessor. */
  function Release(s: seq<Block>, k: nat): seq<Block>
    requires k < |s|
  {
    MergeLeft(MergeRight(s[k := s[k].(free := true)], k), k)
  }

  ghost predicate IsLive(s: seq<Block>, ptr: nat) {
    exists k :: 0 <= k < |s| && !s[k].free && s[k].Payload() == ptr
  }

  ghost function LiveIndex(s: seq<Block>, ptr: nat): nat
    requires IsLive(s, ptr)
  {
    var k :| 0 <= k < |s| && !s[k].free && s[k].Payload() == ptr;
    k
  }

  /** The effect of `kfree(ptr)`; a pointer to no live block is ignored. */
  ghost function Kfree(s: seq<Block>, ptr: nat): seq<Block> {
    if IsLive(s, ptr) then Release(s, LiveIndex(s, ptr)) else s
  }

  // ----- tilings

  /** In a tiling every block starts on a 16-byte boundary and takes a multiple of 16 bytes. */
  lemma {:induction false} TilesAligned(s: seq<Block>, start: nat, end: nat)
    requires Tiles(s, start, end) && start % 16 == 0
    ensures forall i :: 0 <= i < |s| ==> s[i].addr % 16 == 0 && s[i].size % 16 == 0
  {
    if s != [] {
      var t := s[1..];
      TilesAligned(t, s[0].End(), end);
      assert forall i :: 0 < i < |s| ==> s[i] == t[i - 1];
    }
  }

  /** In a tiling every block lies inside start..end, before all later blocks. */
  lemma {:induction false} TilesOrdered(s: seq<Block>, start: nat, end: nat)
    requires Tiles(s, start, end)
    ensures start <= end
    ensures forall i :: 0 <= i < |s| ==> start <= s[i].addr && s[i].End() <= end
    ensures forall i, j :: 0 <= i < j < |s| ==> s[i].End() <= s[j].addr
    ensures forall i :: 0 < i < |s| ==> Adjacent(s, i)
    ensures s != [] ==> s[0].addr == start && s[|s| - 1].End() == end
  {
    if s != [] {
      var t := s[1..];
      TilesOrdered(t, s[0].End(), end);
      forall i | 0 < i < |s| ensures Adjacent(s, i) {
        assert s[i] == t[i - 1];
        assert i > 1 ==> Adjacent(t, i - 1);
      }
      assert forall i :: 0 < i < |s| ==> s[i] == t[i - 1];
    }
  }

  lemma CarveAligned(s: seq<Block>, k: nat, size: nat, start: nat, end: nat)
    requires Tiles(s, start, end) && start % 16 == 0 && size % 16 == 0
    requires k < |s| && size <= s[k].size
    ensures CarvedBlock(s[k], size).addr % 16 == 0
  {
    BlockAligned(s, k, start, end);
    SumAligned(s[k].addr, s[k].size, 16);
    SixteenApart(s[k].addr + s[k].size, size);
  }

  lemma BlockAligned(s: seq<Block>, k: nat, start: nat, end: nat)
    requires Tiles(s, start, end) && start % 16 == 0 && k < |s|
    ensures s[k].addr % 16 == 0 && s[k].size % 16 == 0
  {
    TilesAligned(s, start, end);
  }

  lemma SixteenApart(a: nat, b: nat)
    requires a % 16 == 0 && b % 16 == 0 && b <= a
    ensures (a - b) % 16 == 0
  {
  }

  /** Tilings compose. */
  lemma {:induction false} TilesConcat(p: seq<Block>, q: seq<Block>, start: nat, end: nat)
    ensures Tiles(p + q, start, end) <==>
            Tiles(p, start, start + Extent(p)) && Tiles(q, start + Extent(p), end)
  {
    if p == [] {
      assert p + q == q;
    } else {
      assert (p + q)[1..] == p[1..] + q;
      assert (p + q)[0] == p[0];
      TilesConcat(p[1..], q, p[0].End(), end);
    }
  }

  lemma {:induction false} ExtentConcat(p: seq<Block>, q: seq<Block>)
    ensures Extent(p + q) == Extent(p) + Extent(q)
  {
    if p == [] {
      assert p + q == q;
    } else {
      assert (p + q)[1..] == p[1..] + q;
      assert (p + q)[0] == p[0];
      ExtentConcat(p[1..], q);
    }
  }

  /** Conservation: headers and payloads of a tiling add up to the tiled range. */
  lemma {:induction false} TilesExtent(s: seq<Block>, start: nat, end: nat)
    requires Tiles(s, start, end)
    ensures start + Extent(s) == end
  {
    if s != [] {
      TilesExtent(s[1..], s[0].End(), end);
    }
  }

  /** Where the stretch `m` of a tiling lies. */
  lemma TilesMiddle(p: seq<Block>, m: seq<Block>, q: seq<Block>, start: nat, end: nat)
    requires start % 16 == 0 && m != [] && Tiles(p + m + q, start, end)
    ensures Tiles(p, start, m[0].addr) && Tiles(q, m[|m| - 1].End(), end)
  {
    TilesConcat(p + m, q, start, end);
    TilesConcat(p, m, start, start + Extent(p + m));
    ExtentConcat(p, m);
    var a := start + Extent(p);
    TilesOrdered(p, start, a);
    TilesOrdered(m, a, a + Extent(m));
  }

  /** Replacing a stretch of a tiling by another tiling of the same stretch. */
  lemma TilesReplace(p: seq<Block>, m: seq<Block>, m': seq<Block>, q: seq<Block>, start: nat, end: nat)
    requires start % 16 == 0 && m != [] && Tiles(p + m + q, start, end)
    requires Tiles(m', m[0].addr, m[|m| - 1].End())
    ensures Tiles(p + m' + q, start, end)
  {
    TilesMiddle(p, m, q, start, end);
    TilesGlue(p, m', q, start, m[0].addr, m[|m| - 1].End(), end);
  }

  lemma {:induction false} TilesJoin(p: seq<Block>, q: seq<Block>, start: nat, a: nat, end: nat)
    requires Tiles(p, start, a) && Tiles(q, a, end)
    ensures Tiles(p + q, start, end)
  {
    if p == [] {
      assert p + q == q;
    } else {
      assert (p + q)[0] == p[0] && (p + q)[1..] == p[1..] + q;
      TilesJoin(p[1..], q, p[0].End(), a, end);
    }
  }

  lemma TilesGlue(p: seq<Block>, m: seq<Block>, q: seq<Block>, start: nat, a: nat, b: nat, end: nat)
    requires Tiles(p, start, a) && Tiles(m, a, b) && Tiles(q, b, end)
    ensures Tiles(p + m + q, start, end)
  {
    TilesJoin(p, m, start, a, b);
    TilesJoin(p + m, q, start, b, end);
  }

  // ----- what the operations keep

  /** What an allocation puts in the place of block `b`. */
  function CarvedStretch(b: Block, size: nat): (m: seq<Block>)
    requires ExactFit(b, size) || Splittable(b, size)
    ensures m != []
  {
    if b.size == size then [b.(free := false)]
    else [b.(size := b.size - size - HEADER), CarvedBlock(b, size)]
  }

  lemma CarvedStretchTiles(b: Block, size: nat)
    requires (ExactFit(b, size) || Splittable(b, size)) && b.size % 16 == 0 && size % 16 == 0
    ensures Tiles(CarvedStretch(b, size), b.addr, b.End())
  {
    if b.size != size {
      assert CarvedStretch(b, size)[1..] == [CarvedBlock(b, size)];
      SixteenApart(b.size, size + HEADER);
    }
  }

  lemma CarveTiles(s: seq<Block>, k: nat, size: nat, start: nat, end: nat)
    requires Tiles(s, start, end) && start % 16 == 0 && size % 16 == 0
    requires k < |s| && (ExactFit(s[k], size) || Splittable(s[k], size))
    ensures Tiles(Carve(s, k, size), start, end)
  {
    var p, q := s[..k], s[k + 1..];
    assert s == p + [s[k]] + q;
    assert s[k].size % 16 == 0 by { TilesAligned(s, start, end); }
    CarvedStretchTiles(s[k], size);
    assert Carve(s, k, size) == p + CarvedStretch(s[k], size) + q;
    TilesReplace(p, [s[k]], CarvedStretch(s[k], size), q, start, end);
  }

  lemma MergeTiles(s: seq<Block>, k: nat, start: nat, end: nat)
    requires Tiles(s, start, end) && start % 16 == 0
    requires k + 1 < |s|
    ensures Tiles(Merge(s, k), start, end)
  {
    var p, m, q := s[..k], s[k..k + 2], s[k + 2..];
    assert s == p + m + q;
    MergedBlockTiles(s, k, start, end);
    TilesReplace(p, m, [s[k].(size := s[k].size + s[k + 1].size + HEADER)], q, start, end);
  }

  lemma MergedBlockTiles(s: seq<Block>, k: nat, start: nat, end: nat)
    requires Tiles(s, start, end) && start % 16 == 0 && k + 1 < |s|
    ensures Tiles([s[k].(size := s[k].size + s[k + 1].size + HEADER)], s[k].addr, s[k + 1].End())
  {
    assert Adjacent(s, k + 1) by { TilesOrdered(s, start, end); }
    BlockAligned(s, k, start, end);
    BlockAligned(s, k + 1, start, end);
  }

  lemma MarkTiles(s: seq<Block>, k: nat, free: bool, start: nat, end: nat)
    requires Tiles(s, start, end) && start % 16 == 0
    requires k < |s|
    ensures Tiles(s[k := s[k].(free := free)], start, end)
  {
    var p, q, b := s[..k], s[k + 1..], s[k].(free := free);
    assert s == p + [s[k]] + q;
    assert s[k := b] == p + [b] + q;
    TilesOrdered(s, start, end);
    TilesAligned(s, start, end);
    TilesReplace(p, [s[k]], [b], q, start, end);
  }

  lemma ReleaseTiles(s: seq<Block>, k: nat, start: nat, end: nat)
    requires Tiles(s, start, end) && start % 16 == 0
    requires k < |s|
    ensures Tiles(Release(s, k), start, end)
  {
    MarkTiles(s, k, true, start, end);
    var s1 := s[k := s[k].(free := true)];
    if k + 1 < |s1| && s1[k + 1].free {
      MergeTiles(s1, k, start, end);
    }
    var s2 := MergeRight(s1, k);
    if k > 0 && s2[k - 1].free {
      MergeTiles(s2, k - 1, start, end);
    }
  }

  lemma CarveCanonical(s: seq<Block>, k: nat, size: nat)
    requires Canonical(s)
    requires k < |s| && (ExactFit(s[k], size) || Splittable(s[k], size))
    ensures Canonical(Carve(s, k, size))
  {
    var t := Carve(s, k, size);
    if s[k].size == size {
      forall i | 0 < i < |t| ensures !FreePair(t, i) {
        assert !FreePair(s, i);
      }
    } else {
      forall i | 0 < i < |t| ensures !FreePair(t, i) {
        if i < k {
          assert !FreePair(s, i);
        } else if i == k {
          assert !FreePair(s, k);
        } else if i > k + 2 {
          assert !FreePair(s, i - 1);
        }
      }
    }
  }

  /** One coalescing pass to each side restores canonical form. */
  lemma ReleaseCanonical(s: seq<Block>, k: nat)
    requires Canonical(s)
    requires k < |s| && !s[k].free
    ensures Canonical(Release(s, k))
  {
    var s1 := s[k := s[k].(free := true)];
    var s2 := MergeRight(s1, k);
    forall i | 0 < i < |s2| && i != k ensures !FreePair(s2, i) {
      if i < k || |s2| == |s| {
        assert !FreePair(s, i);
      } else if i == k + 1 {
        assert !FreePair(s, k + 2);
      } else {
        assert !FreePair(s, i + 1);
      }
    }
    var s3 := MergeLeft(s2, k);
    if |s3| < |s2| {
      forall i | 0 < i < |s3| ensures !FreePair(s3, i) {
        if i < k {
          assert !FreePair(s2, i);
        } else {
          assert !FreePair(s2, i + 1);
        }
      }
    }
  }

  /** Allocation adds exactly one live block, disjoint from the ones before. */
  lemma CarveLive(s: seq<Block>, k: nat, size: nat)
    requires k < |s| && (ExactFit(s[k], size) || Splittable(s[k], size))
    ensures LiveBlocks(Carve(s, k, size)) == LiveBlocks(s) + {CarvedBlock(s[k], size)}
  {
    var t := Carve(s, k, size);
    var n := CarvedBlock(s[k], size);
    var w := |t| - |s|;
    assert n == t[k + w];
    forall b | b in LiveBlocks(s) ensures b in LiveBlocks(t) {
      var i :| 0 <= i < |s| && s[i] == b;
      assert if i < k then t[i] == b else t[i + w] == b;
    }
    forall b | b in LiveBlocks(t) ensures b in LiveBlocks(s) + {n} {
      var i :| 0 <= i < |t| && t[i] == b;
      assert i < k ==> s[i] == b;
      assert i > k + w ==> s[i - w] == b;
    }
  }

  lemma MergeLive(s: seq<Block>, k: nat)
    requires k + 1 < |s| && s[k].free && s[k + 1].free
    ensures LiveBlocks(Merge(s, k)) == LiveBlocks(s)
  {
    var t := Merge(s, k);
    forall b | b in LiveBlocks(s) ensures b in LiveBlocks(t) {
      var i :| 0 <= i < |s| && s[i] == b;
      assert if i < k then t[i] == b else t[i - 1] == b;
    }
    forall b | b in LiveBlocks(t) ensures b in LiveBlocks(s) {
      var i :| 0 <= i < |t| && t[i] == b;
      assert if i < k then s[i] == b else s[i + 1] == b;
    }
  }

  lemma MarkLive(s: seq<Block>, k: nat, start: nat, end: nat)
    requires Tiles(s, start, end) && k < |s| && !s[k].free
    ensures LiveBlocks(s[k := s[k].(free := true)]) == LiveBlocks(s) - {s[k]}
  {
    TilesOrdered(s, start, end);
    var s1 := s[k := s[k].(free := true)];
    forall b | b in LiveBlocks(s) - {s[k]} ensures b in LiveBlocks(s1) {
      var i :| 0 <= i < |s| && s[i] == b;
      assert s1[i] == b;
    }
    forall b | b in LiveBlocks(s1) ensures b in LiveBlocks(s) - {s[k]} {
      var i :| 0 <= i < |s1| && s1[i] == b;
      assert s[i] == b;
      assert i < k ==> s[i].End() <= s[k].addr;
      assert i > k ==> s[k].End() <= s[i].addr;
    }
  }

  /** Freeing a live block removes exactly that block from the live set. */
  lemma ReleaseLive(s: seq<Block>, k: nat, start: nat, end: nat)
    requires Tiles(s, start, end)
    requires k < |s| && !s[k].free
    ensures LiveBlocks(Release(s, k)) == LiveBlocks(s) - {s[k]}
  {
    var s1 := s[k := s[k].(free := true)];
    MarkLive(s, k, start, end);
    if k + 1 < |s1| && s1[k + 1].free {
      MergeLive(s1, k);
    }
    var s2 := MergeRight(s1, k);
    if k > 0 && s2[k - 1].free {
      MergeLive(s2, k - 1);
    }
  }
}
