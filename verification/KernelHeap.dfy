/** test.c's allocator as it runs: headers inside one 4096-byte page, linked by address.

    The page is an array of 1024 words. A `struct mm_entry` at address `a` is the four words
    status, size, next, prev starting at word (a - base) / 4. Pointers are 32-bit addresses and
    NULL is 0. The ghost field `blocks` is the block list of module HeapBlocks; every method is
    proved to change it by exactly the corresponding function of that module.
 */
module KernelHeap {
  import opened Bits
  import opened Types
  import opened HeapBlocks
  import HeapRuns

  const STATUS_ALLOCATED: Word := 0xFFFF_FFFF
  const STATUS_FREE: Word := 0xAAAA_AAAA
  const PAGE_WORDS := 1024

  const STATUS := 0
  const SIZE := 1
  const NEXT := 2
  const PREV := 3

  // ----- headers in the page

  datatype MmEntry = MmEntry(status: Word, size: Word, next: Word, prev: Word)

  predicate OnPage(base: int, addr: int) {
    base <= addr && addr + HEADER <= base + PAGE && (addr - base) % 4 == 0
  }

  function Slot(base: int, addr: int, field: int): (x: int)
    requires OnPage(base, addr) && 0 <= field < 4
    ensures 0 <= x < PAGE_WORDS
  {
    (addr - base) / 4 + field
  }

  function Entry(w: seq<Word>, base: int, addr: int): MmEntry
    requires |w| == PAGE_WORDS && OnPage(base, addr)
  {
    MmEntry(w[Slot(base, addr, STATUS)], w[Slot(base, addr, SIZE)],
            w[Slot(base, addr, NEXT)], w[Slot(base, addr, PREV)])
  }

  function Put(w: seq<Word>, base: int, addr: int, field: int, value: Word): (w': seq<Word>)
    requires |w| == PAGE_WORDS && OnPage(base, addr) && 0 <= field < 4
    ensures |w'| == PAGE_WORDS
  {
    w[Slot(base, addr, field) := value]
  }

  lemma PutHere(w: seq<Word>, base: int, a: int, field: int, value: Word)
    requires |w| == PAGE_WORDS && OnPage(base, a) && 0 <= field < 4
    ensures var e, e' := Entry(w, base, a), Entry(Put(w, base, a, field, value), base, a);
            e' == if field == STATUS then e.(status := value)
                  else if field == SIZE then e.(size := value)
                  else if field == NEXT then e.(next := value)
                  else e.(prev := value)
  {
  }

  lemma PutApart(w: seq<Word>, base: int, a: int, b: int, field: int, value: Word)
    requires |w| == PAGE_WORDS && OnPage(base, a) && OnPage(base, b) && 0 <= field < 4
    requires a + HEADER <= b || b + HEADER <= a
    ensures Entry(Put(w, base, b, field, value), base, a) == Entry(w, base, a)
  {
  }

  // ----- how a page represents a block list

  function NextAddr(s: seq<Block>, i: int): int
    requires 0 <= i < |s|
  {
    if i + 1 < |s| then s[i + 1].addr else 0
  }

  function PrevAddr(s: seq<Block>, i: int): int
    requires 0 <= i < |s|
  {
    if i > 0 then s[i - 1].addr else 0
  }

  ghost predicate LinkedAt(w: seq<Word>, base: int, s: seq<Block>, unset: int, i: int)
    requires 0 <= i < |s|
  {
    && |w| == PAGE_WORDS
    && OnPage(base, s[i].addr)
    && var e := Entry(w, base, s[i].addr);
    && (i != unset ==> e.status == (if s[i].free then STATUS_FREE else STATUS_ALLOCATED))
    && e.size == s[i].size
    && e.next == NextAddr(s, i)
    && e.prev == PrevAddr(s, i)
  }

  /** Every block has its header in place, linked to both neighbours. The status word of block
      `unset` (if that is an index) is left open: `break_chunk` does not write it. */
  ghost predicate Linked(w: seq<Word>, base: int, s: seq<Block>, unset: int) {
    forall i :: 0 <= i < |s| ==> LinkedAt(w, base, s, unset, i)
  }

  /** Following `next` and then `prev`, or the other way round, leads back to the same header, and
      `next` always leads upwards: the list is acyclic and in address order. */
  lemma LinksAreInverse(w: seq<Word>, base: int, s: seq<Block>, i: int)
    requires 0 <= i < |s| && Linked(w, base, s, -1) && Placed(s, base)
    ensures |w| == PAGE_WORDS && OnPage(base, s[i].addr)
    ensures var next := Entry(w, base, s[i].addr).next;
            next != 0 ==> next > s[i].addr && OnPage(base, next) && Entry(w, base, next).prev == s[i].addr
    ensures var prev := Entry(w, base, s[i].addr).prev;
            prev != 0 ==> prev < s[i].addr && OnPage(base, prev) && Entry(w, base, prev).next == s[i].addr
    ensures Entry(w, base, s[i].addr).next == 0 <==> i == |s| - 1
    ensures Entry(w, base, s[i].addr).prev == 0 <==> i == 0
  {
    assert LinkedAt(w, base, s, -1, i);
    if i + 1 < |s| {
      assert LinkedAt(w, base, s, -1, i + 1);
      assert s[i].End() <= s[i + 1].addr;
    }
    if i > 0 {
      assert LinkedAt(w, base, s, -1, i - 1);
      assert s[i - 1].End() <= s[i].addr;
    }
  }

  /** All that the pointer edits need from a tiling: headers lie on the page, in order. */
  ghost predicate Placed(s: seq<Block>, base: int) {
    && 0 < base && base + PAGE < WORD_LIMIT
    && (forall i :: 0 <= i < |s| ==> OnPage(base, s[i].addr))
    && (forall i :: 0 <= i < |s| ==> s[i].End() <= base + PAGE)
    && (forall i, j :: 0 <= i < j < |s| ==> s[i].End() <= s[j].addr)
  }

  lemma TilesPlaced(s: seq<Block>, base: nat)
    requires base % 16 == 0 && 0 < base && base + PAGE < WORD_LIMIT && Tiles(s, base, base + PAGE)
    ensures Placed(s, base)
  {
    TilesOrdered(s, base, base + PAGE);
    TilesAligned(s, base, base + PAGE);
    forall i | 0 <= i < |s| ensures OnPage(base, s[i].addr) {
      AlignedOffset(s[i].addr, base);
    }
  }

  lemma PageAligned(x: int)
    requires x % PAGE == 0
    ensures x % 16 == 0
  {
    assert x == 16 * (256 * (x / PAGE));
  }

  lemma AlignedOffset(a: int, b: int)
    requires a % 16 == 0 && b % 16 == 0
    ensures (a - b) % 4 == 0
  {
  }

  lemma Apart(s: seq<Block>, base: int, i: int, j: int)
    requires Placed(s, base) && 0 <= i < |s| && 0 <= j < |s| && i != j
    ensures s[i].addr + HEADER <= s[j].addr || s[j].addr + HEADER <= s[i].addr
  {
    assert i < j ==> s[i].End() <= s[j].addr;
    assert j < i ==> s[j].End() <= s[i].addr;
  }

  // ----- representation of each kind of edit

  lemma LinkedMark(w: seq<Word>, base: int, s: seq<Block>, k: int, unset: int, free: bool)
    requires Placed(s, base) && 0 <= k < |s|
    requires Linked(w, base, s, unset) && (unset == k || unset == -1)
    requires |w| == PAGE_WORDS
    ensures Linked(Put(w, base, s[k].addr, STATUS, if free then STATUS_FREE else STATUS_ALLOCATED),
                   base, s[k := s[k].(free := free)], -1)
  {
    var v := if free then STATUS_FREE else STATUS_ALLOCATED;
    var t := s[k := s[k].(free := free)];
    forall i | 0 <= i < |t|
      ensures LinkedAt(Put(w, base, s[k].addr, STATUS, v), base, t, -1, i)
    {
      assert LinkedAt(w, base, s, unset, i);
      if i == k {
        PutHere(w, base, s[k].addr, STATUS, v);
      } else {
        Apart(s, base, i, k);
        PutApart(w, base, s[i].addr, s[k].addr, STATUS, v);
      }
    }
  }

  /** The words written when the header at `node` swallows the one at `eaten`. */
  function AbsorbWords(w: seq<Word>, base: int, node: Word, next: Word, size: Word): (w': seq<Word>)
    requires |w| == PAGE_WORDS && OnPage(base, node) && (next != 0 ==> OnPage(base, next))
    ensures |w'| == PAGE_WORDS
  {
    var w1 := Put(w, base, node, NEXT, next);
    var w2 := if next != 0 then Put(w1, base, next, PREV, node) else w1;
    Put(w2, base, node, SIZE, size)
  }

  function MergeWords(w: seq<Word>, base: int, s: seq<Block>, k: int): (w': seq<Word>)
    requires |w| == PAGE_WORDS && Placed(s, base) && 0 <= k < |s| - 1
    ensures |w'| == PAGE_WORDS
  {
    assert s[k].End() <= s[k + 1].addr;
    AbsorbWords(w, base, s[k].addr, NextAddr(s, k + 1), s[k].size + s[k + 1].size + HEADER)
  }

  lemma MergeWordsAt(w: seq<Word>, base: int, s: seq<Block>, k: int, j: int)
    requires |w| == PAGE_WORDS && Placed(s, base) && 0 <= k < |s| - 1
    requires 0 <= j < |s|
    ensures var e, e' := Entry(w, base, s[j].addr), Entry(MergeWords(w, base, s, k), base, s[j].addr);
            e' == if j == k then e.(size := s[k].size + s[k + 1].size + HEADER, next := NextAddr(s, k + 1))
                  else if j == k + 2 then e.(prev := s[k].addr)
                  else e
  {
    var w1 := Put(w, base, s[k].addr, NEXT, NextAddr(s, k + 1));
    var w2 := if k + 2 < |s| then Put(w1, base, s[k + 2].addr, PREV, s[k].addr) else w1;
    assert s[k].End() <= s[k + 1].addr;
    var size := s[k].size + s[k + 1].size + HEADER;
    if j == k {
      PutHere(w, base, s[k].addr, NEXT, NextAddr(s, k + 1));
      PutHere(w2, base, s[k].addr, SIZE, size);
    } else {
      Apart(s, base, j, k);
      PutApart(w, base, s[j].addr, s[k].addr, NEXT, NextAddr(s, k + 1));
      PutApart(w2, base, s[j].addr, s[k].addr, SIZE, size);
    }
    if j == k + 2 {
      PutHere(w1, base, s[j].addr, PREV, s[k].addr);
    } else if k + 2 < |s| {
      Apart(s, base, j, k + 2);
      PutApart(w1, base, s[j].addr, s[k + 2].addr, PREV, s[k].addr);
    }
  }

  /** Where block `i` of the merged list was, and who its neighbours are. */
  lemma MergeNeighbours(s: seq<Block>, k: int, i: int)
    requires 0 <= k < |s| - 1 && 0 <= i < |s| - 1
    ensures var t, j := Merge(s, k), if i <= k then i else i + 1;
            && |t| == |s| - 1
            && t[i] == (if i == k then s[k].(size := s[k].size + s[k + 1].size + HEADER) else s[j])
            && NextAddr(t, i) == (if i == k then NextAddr(s, k + 1) else NextAddr(s, j))
            && PrevAddr(t, i) == (if i == k + 1 then s[k].addr else PrevAddr(s, j))
  {
  }

  lemma LinkedMerge(w: seq<Word>, base: int, s: seq<Block>, k: int)
    requires |w| == PAGE_WORDS && Placed(s, base) && 0 <= k < |s| - 1
    requires Linked(w, base, s, -1)
    ensures Linked(MergeWords(w, base, s, k), base, Merge(s, k), -1)
  {
    var w', t := MergeWords(w, base, s, k), Merge(s, k);
    forall i | 0 <= i < |t| ensures LinkedAt(w', base, t, -1, i) {
      var j := if i <= k then i else i + 1;
      MergeNeighbours(s, k, i);
      assert LinkedAt(w, base, s, -1, j);
      MergeWordsAt(w, base, s, k, j);
    }
  }

  /** The words written by `break_chunk`: the header at `n` is inserted after the one at `node`. */
  function SplitWords(w: seq<Word>, base: int, node: Word, next: Word, n: Word, rest: Word, size: Word): (w': seq<Word>)
    requires |w| == PAGE_WORDS && OnPage(base, node) && OnPage(base, n) && (next != 0 ==> OnPage(base, next))
    ensures |w'| == PAGE_WORDS
  {
    var w1 := Put(w, base, node, SIZE, rest);
    var w2 := Put(w1, base, n, SIZE, size);
    var w3 := Put(w2, base, n, NEXT, next);
    var w4 := Put(w3, base, n, PREV, node);
    var w5 := if next != 0 then Put(w4, base, next, PREV, n) else w4;
    Put(w5, base, node, NEXT, n)
  }

  function CarveWords(w: seq<Word>, base: int, s: seq<Block>, k: int, size: Word): (w': seq<Word>)
    requires |w| == PAGE_WORDS && Placed(s, base)
    requires 0 <= k < |s| && Splittable(s[k], size) && OnPage(base, CarvedBlock(s[k], size).addr)
    ensures |w'| == PAGE_WORDS
  {
    SplitWords(w, base, s[k].addr, NextAddr(s, k), CarvedBlock(s[k], size).addr, s[k].size - size - HEADER, size)
  }

  lemma CarveWordsAt(w: seq<Word>, base: int, s: seq<Block>, k: int, size: Word, j: int)
    requires |w| == PAGE_WORDS && Placed(s, base)
    requires 0 <= k < |s| && Splittable(s[k], size) && OnPage(base, CarvedBlock(s[k], size).addr)
    requires 0 <= j < |s|
    ensures var n := CarvedBlock(s[k], size).addr;
            var e, e' := Entry(w, base, s[j].addr), Entry(CarveWords(w, base, s, k, size), base, s[j].addr);
            e' == if j == k then e.(size := s[k].size - size - HEADER, next := n)
                  else if j == k + 1 then e.(prev := n)
                  else e
  {
    var n, a := CarvedBlock(s[k], size).addr, s[j].addr;
    var w1 := Put(w, base, s[k].addr, SIZE, s[k].size - size - HEADER);
    var w2 := Put(w1, base, n, SIZE, size);
    var w3 := Put(w2, base, n, NEXT, NextAddr(s, k));
    var w4 := Put(w3, base, n, PREV, s[k].addr);
    var w5 := if k + 1 < |s| then Put(w4, base, s[k + 1].addr, PREV, n) else w4;
    assert j < k ==> s[j].End() <= s[k].addr;
    assert k < j ==> s[k].End() <= s[j].addr;
    PutApart(w1, base, a, n, SIZE, size);
    PutApart(w2, base, a, n, NEXT, NextAddr(s, k));
    PutApart(w3, base, a, n, PREV, s[k].addr);
    if j == k {
      PutHere(w, base, a, SIZE, s[k].size - size - HEADER);
      PutHere(w5, base, a, NEXT, n);
    } else {
      PutApart(w, base, a, s[k].addr, SIZE, s[k].size - size - HEADER);
      PutApart(w5, base, a, s[k].addr, NEXT, n);
    }
    if j == k + 1 {
      PutHere(w4, base, a, PREV, n);
    } else if k + 1 < |s| {
      Apart(s, base, j, k + 1);
      PutApart(w4, base, a, s[k + 1].addr, PREV, n);
    }
  }

  lemma CarveWordsNew(w: seq<Word>, base: int, s: seq<Block>, k: int, size: Word)
    requires |w| == PAGE_WORDS && Placed(s, base)
    requires 0 <= k < |s| && Splittable(s[k], size) && OnPage(base, CarvedBlock(s[k], size).addr)
    ensures var n := CarvedBlock(s[k], size).addr;
            var e := Entry(CarveWords(w, base, s, k, size), base, n);
            e.size == size && e.next == NextAddr(s, k) && e.prev == s[k].addr
  {
    var n := CarvedBlock(s[k], size).addr;
    var w1 := Put(w, base, s[k].addr, SIZE, s[k].size - size - HEADER);
    var w2 := Put(w1, base, n, SIZE, size);
    var w3 := Put(w2, base, n, NEXT, NextAddr(s, k));
    var w4 := Put(w3, base, n, PREV, s[k].addr);
    var w5 := if k + 1 < |s| then Put(w4, base, s[k + 1].addr, PREV, n) else w4;
    PutHere(w1, base, n, SIZE, size);
    PutHere(w2, base, n, NEXT, NextAddr(s, k));
    PutHere(w3, base, n, PREV, s[k].addr);
    if k + 1 < |s| {
      assert s[k].End() <= s[k + 1].addr;
      PutApart(w4, base, n, s[k + 1].addr, PREV, n);
    }
    PutApart(w5, base, n, s[k].addr, NEXT, n);
  }

  /** Where block `i` of the carved list was, and who its neighbours are. */
  lemma CarveNeighbours(s: seq<Block>, k: int, size: nat, i: int)
    requires 0 <= k < |s| && Splittable(s[k], size) && 0 <= i <= |s| && i != k + 1
    ensures var t, j, n := Carve(s, k, size), if i <= k then i else i - 1, CarvedBlock(s[k], size).addr;
            && |t| == |s| + 1
            && t[i] == (if i == k then s[k].(size := s[k].size - size - HEADER) else s[j])
            && NextAddr(t, i) == (if i == k then n else NextAddr(s, j))
            && PrevAddr(t, i) == (if i == k + 2 then n else PrevAddr(s, j))
  {
  }

  lemma CarveNewNeighbours(s: seq<Block>, k: int, size: nat)
    requires 0 <= k < |s| && Splittable(s[k], size)
    ensures var t := Carve(s, k, size);
            && |t| == |s| + 1 && t[k + 1] == CarvedBlock(s[k], size)
            && NextAddr(t, k + 1) == NextAddr(s, k) && PrevAddr(t, k + 1) == s[k].addr
  {
  }

  lemma LinkedCarve(w: seq<Word>, base: int, s: seq<Block>, k: int, size: Word)
    requires |w| == PAGE_WORDS && Placed(s, base)
    requires 0 <= k < |s| && Splittable(s[k], size) && OnPage(base, CarvedBlock(s[k], size).addr)
    requires Linked(w, base, s, -1)
    ensures Linked(CarveWords(w, base, s, k, size), base, Carve(s, k, size), k + 1)
  {
    var w', t, unset := CarveWords(w, base, s, k, size), Carve(s, k, size), k + 1;
    CarveNewNeighbours(s, k, size);
    forall i | 0 <= i < |t| ensures LinkedAt(w', base, t, unset, i) {
      if i == k + 1 {
        CarveWordsNew(w, base, s, k, size);
      } else {
        var j := if i <= k then i else i - 1;
        CarveNeighbours(s, k, size, i);
        assert LinkedAt(w, base, s, -1, j);
        CarveWordsAt(w, base, s, k, size, j);
      }
    }
  }

  lemma CarvedOnPage(s: seq<Block>, base: int, k: int, size: nat)
    requires Placed(s, base) && base % 16 == 0 && Tiles(s, base, base + PAGE)
    requires 0 <= k < |s| && Splittable(s[k], size) && size % 16 == 0
    ensures OnPage(base, CarvedBlock(s[k], size).addr)
  {
    TilesOrdered(s, base, base + PAGE);
    CarveAligned(s, k, size, base, base + PAGE);
    AlignedOffset(CarvedBlock(s[k], size).addr, base);
  }

  // ----- payloads

  /** Word `x` of the page lies in the payload of `b`. */
  predicate InPayload(base: int, b: Block, x: int) {
    b.Payload() <= base + 4 * x < b.End()
  }

  /** No word inside a live payload differs. */
  ghost predicate PayloadsKept(w: seq<Word>, w': seq<Word>, base: int, s: seq<Block>) {
    && |w| == |w'| == PAGE_WORDS
    && forall b, x :: b in s && !b.free && 0 <= x < PAGE_WORDS && InPayload(base, b, x) ==> w'[x] == w[x]
  }

  /** A header at `a` overlaps no live block's payload. */
  ghost predicate Clear(s: seq<Block>, a: int) {
    forall b :: b in s && !b.free ==> a + HEADER <= b.Payload() || b.End() <= a
  }

  lemma PutKeeps(w: seq<Word>, w': seq<Word>, base: int, s: seq<Block>, a: int, field: int, value: Word)
    requires PayloadsKept(w, w', base, s) && OnPage(base, a) && 0 <= field < 4 && Clear(s, a)
    ensures PayloadsKept(w, Put(w', base, a, field, value), base, s)
  {
  }

  lemma HeaderClear(s: seq<Block>, base: int, k: int)
    requires Placed(s, base) && 0 <= k < |s|
    ensures Clear(s, s[k].addr)
  {
    forall b | b in s && !b.free ensures s[k].addr + HEADER <= b.Payload() || b.End() <= s[k].addr {
      var i :| 0 <= i < |s| && s[i] == b;
      assert i < k ==> s[i].End() <= s[k].addr;
      assert k < i ==> s[k].End() <= s[i].addr;
    }
  }

  lemma CarvedClear(s: seq<Block>, base: int, k: int, size: nat)
    requires Placed(s, base) && 0 <= k < |s| && (ExactFit(s[k], size) || Splittable(s[k], size))
    ensures Clear(s, CarvedBlock(s[k], size).addr)
  {
    var n := CarvedBlock(s[k], size).addr;
    forall b | b in s && !b.free ensures n + HEADER <= b.Payload() || b.End() <= n {
      var i :| 0 <= i < |s| && s[i] == b;
      assert i < k ==> s[i].End() <= s[k].addr;
      assert k < i ==> s[k].End() <= s[i].addr;
    }
  }

  lemma AbsorbKeeps(w: seq<Word>, w': seq<Word>, base: int, s: seq<Block>, node: Word, next: Word, size: Word)
    requires PayloadsKept(w, w', base, s) && OnPage(base, node) && Clear(s, node)
    requires next != 0 ==> OnPage(base, next) && Clear(s, next)
    ensures PayloadsKept(w, AbsorbWords(w', base, node, next, size), base, s)
  {
    var w1 := Put(w', base, node, NEXT, next);
    PutKeeps(w, w', base, s, node, NEXT, next);
    var w2 := w1;
    if next != 0 {
      PutKeeps(w, w1, base, s, next, PREV, node);
      w2 := Put(w1, base, next, PREV, node);
    }
    PutKeeps(w, w2, base, s, node, SIZE, size);
  }

  lemma MergeKeeps(w: seq<Word>, w': seq<Word>, base: int, s: seq<Block>, k: int)
    requires PayloadsKept(w, w', base, s) && Placed(s, base) && 0 <= k < |s| - 1
    ensures PayloadsKept(w, MergeWords(w', base, s, k), base, s)
  {
    HeaderClear(s, base, k);
    if k + 2 < |s| {
      HeaderClear(s, base, k + 2);
    }
    assert s[k].End() <= s[k + 1].addr;
    AbsorbKeeps(w, w', base, s, s[k].addr, NextAddr(s, k + 1), s[k].size + s[k + 1].size + HEADER);
  }

  lemma SplitKeeps(w: seq<Word>, base: int, s: seq<Block>, node: Word, next: Word, n: Word, rest: Word, size: Word)
    requires |w| == PAGE_WORDS && OnPage(base, node) && OnPage(base, n) && (next != 0 ==> OnPage(base, next))
    requires Clear(s, node) && Clear(s, n) && (next != 0 ==> Clear(s, next))
    ensures PayloadsKept(w, SplitWords(w, base, node, next, n, rest, size), base, s)
  {
    var w1 := Put(w, base, node, SIZE, rest);
    PutKeeps(w, w, base, s, node, SIZE, rest);
    PutKeeps(w, w1, base, s, n, SIZE, size);
    var w2 := Put(w1, base, n, SIZE, size);
    PutKeeps(w, w2, base, s, n, NEXT, next);
    var w3 := Put(w2, base, n, NEXT, next);
    PutKeeps(w, w3, base, s, n, PREV, node);
    var w4 := Put(w3, base, n, PREV, node);
    var w5 := w4;
    if next != 0 {
      PutKeeps(w, w4, base, s, next, PREV, n);
      w5 := Put(w4, base, next, PREV, n);
    }
    PutKeeps(w, w5, base, s, node, NEXT, n);
  }

  lemma CarveKeeps(w: seq<Word>, base: int, s: seq<Block>, k: int, size: Word)
    requires |w| == PAGE_WORDS && Placed(s, base)
    requires 0 <= k < |s| && Splittable(s[k], size) && OnPage(base, CarvedBlock(s[k], size).addr)
    ensures PayloadsKept(w, CarveWords(w, base, s, k, size), base, s)
  {
    HeaderClear(s, base, k);
    CarvedClear(s, base, k, size);
    if k + 1 < |s| {
      HeaderClear(s, base, k + 1);
    }
    SplitKeeps(w, base, s, s[k].addr, NextAddr(s, k), CarvedBlock(s[k], size).addr, s[k].size - size - HEADER, size);
  }

  /** Nothing a caller stores inside live payloads disturbs the block list. */
  lemma CallersCannotBreakHeap(w: seq<Word>, w': seq<Word>, base: int, s: seq<Block>)
    requires |w| == |w'| == PAGE_WORDS && Placed(s, base) && Linked(w, base, s, -1)
    requires forall x :: 0 <= x < PAGE_WORDS && w'[x] != w[x] ==>
                           exists b :: b in s && !b.free && InPayload(base, b, x)
    ensures Linked(w', base, s, -1)
  {
    forall i | 0 <= i < |s| ensures LinkedAt(w', base, s, -1, i) {
      assert LinkedAt(w, base, s, -1, i);
      var a := s[i].addr;
      HeaderClear(s, base, i);
      forall f | 0 <= f < 4 ensures w'[Slot(base, a, f)] == w[Slot(base, a, f)] {
        var x := Slot(base, a, f);
        assert forall b :: b in s && !b.free ==> !InPayload(base, b, x);
      }
    }
  }

  // ----- whole operations on the page

  /** The page after `kmalloc` took block `k`. */
  function AllocWords(w: seq<Word>, base: int, s: seq<Block>, k: int, size: Word): (w': seq<Word>)
    requires |w| == PAGE_WORDS && Placed(s, base)
    requires 0 <= k < |s| && (ExactFit(s[k], size) || Splittable(s[k], size))
    requires OnPage(base, CarvedBlock(s[k], size).addr)
    ensures |w'| == PAGE_WORDS
  {
    Put(if ExactFit(s[k], size) then w else CarveWords(w, base, s, k, size),
        base, CarvedBlock(s[k], size).addr, STATUS, STATUS_ALLOCATED)
  }

  lemma AllocLinked(w: seq<Word>, base: int, s: seq<Block>, k: int, size: Word)
    requires |w| == PAGE_WORDS && base % 16 == 0 && 0 < base && base + PAGE < WORD_LIMIT
    requires Tiles(s, base, base + PAGE) && Placed(s, base) && Linked(w, base, s, -1)
    requires 0 <= k < |s| && (ExactFit(s[k], size) || Splittable(s[k], size)) && size % 16 == 0
    requires OnPage(base, CarvedBlock(s[k], size).addr)
    ensures Linked(AllocWords(w, base, s, k, size), base, Carve(s, k, size), -1)
  {
    if ExactFit(s[k], size) {
      LinkedMark(w, base, s, k, -1, false);
    } else {
      CarveTiles(s, k, size, base, base + PAGE);
      TilesPlaced(Carve(s, k, size), base);
      LinkedCarve(w, base, s, k, size);
      MarkNew(CarveWords(w, base, s, k, size), base, Carve(s, k, size), k + 1);
    }
  }

  lemma MarkNew(w: seq<Word>, base: int, t: seq<Block>, n: int)
    requires |w| == PAGE_WORDS && Placed(t, base) && 0 <= n < |t| && !t[n].free
    requires Linked(w, base, t, n)
    ensures Linked(Put(w, base, t[n].addr, STATUS, STATUS_ALLOCATED), base, t, -1)
  {
    LinkedMark(w, base, t, n, n, false);
    assert t[n := t[n].(free := false)] == t;
  }

  lemma AllocKeeps(w: seq<Word>, base: int, s: seq<Block>, k: int, size: Word)
    requires |w| == PAGE_WORDS && Placed(s, base)
    requires 0 <= k < |s| && (ExactFit(s[k], size) || Splittable(s[k], size))
    requires OnPage(base, CarvedBlock(s[k], size).addr)
    ensures PayloadsKept(w, AllocWords(w, base, s, k, size), base, s)
  {
    var n := CarvedBlock(s[k], size).addr;
    var w1 := if ExactFit(s[k], size) then w else CarveWords(w, base, s, k, size);
    if !ExactFit(s[k], size) {
      CarveKeeps(w, base, s, k, size);
    }
    CarvedClear(s, base, k, size);
    PutKeeps(w, w1, base, s, n, STATUS, STATUS_ALLOCATED);
  }

  function RightWords(w: seq<Word>, base: int, s: seq<Block>, k: int): (w': seq<Word>)
    requires |w| == PAGE_WORDS && Placed(s, base) && 0 <= k < |s|
    ensures |w'| == PAGE_WORDS
  {
    if k + 1 < |s| && s[k + 1].free then MergeWords(w, base, s, k) else w
  }

  function LeftWords(w: seq<Word>, base: int, s: seq<Block>, k: int): (w': seq<Word>)
    requires |w| == PAGE_WORDS && Placed(s, base) && 0 <= k < |s|
    ensures |w'| == PAGE_WORDS
  {
    if k > 0 && s[k - 1].free then MergeWords(w, base, s, k - 1) else w
  }

  function Marked(s: seq<Block>, k: int): (t: seq<Block>)
    requires 0 <= k < |s|
    ensures |t| == |s|
  {
    s[k := s[k].(free := true)]
  }

  /** Every stage of `kfree` keeps the tiling. */
  lemma FreeStages(s: seq<Block>, base: int, k: int)
    requires 0 <= k < |s|
    requires base % 16 == 0 && 0 < base && base + PAGE < WORD_LIMIT && Tiles(s, base, base + PAGE)
    ensures Placed(s, base) && Placed(Marked(s, k), base) && Placed(MergeRight(Marked(s, k), k), base)
    ensures Tiles(Marked(s, k), base, base + PAGE) && Tiles(MergeRight(Marked(s, k), k), base, base + PAGE)
  {
    MarkTiles(s, k, true, base, base + PAGE);
    RightTiles(Marked(s, k), k, base);
    TilesPlaced(s, base);
    TilesPlaced(Marked(s, k), base);
    TilesPlaced(MergeRight(Marked(s, k), k), base);
  }

  lemma RightTiles(s: seq<Block>, k: int, base: nat)
    requires base % 16 == 0 && 0 <= k < |s| && Tiles(s, base, base + PAGE)
    ensures Tiles(MergeRight(s, k), base, base + PAGE)
  {
    if k + 1 < |s| && s[k + 1].free {
      MergeTiles(s, k, base, base + PAGE);
    }
  }

  /** The page after `kfree` released block `k`. */
  function FreeWords(w: seq<Word>, base: int, s: seq<Block>, k: int): (w': seq<Word>)
    requires |w| == PAGE_WORDS && 0 <= k < |s|
    requires base % 16 == 0 && 0 < base && base + PAGE < WORD_LIMIT && Tiles(s, base, base + PAGE)
    ensures |w'| == PAGE_WORDS
  {
    FreeStages(s, base, k);
    var w1 := Put(w, base, s[k].addr, STATUS, STATUS_FREE);
    LeftWords(RightWords(w1, base, Marked(s, k), k), base, MergeRight(Marked(s, k), k), k)
  }

  lemma RightLinked(w: seq<Word>, base: int, s: seq<Block>, k: int)
    requires |w| == PAGE_WORDS && Placed(s, base) && 0 <= k < |s|
    requires Linked(w, base, s, -1)
    ensures Linked(RightWords(w, base, s, k), base, MergeRight(s, k), -1)
  {
    if k + 1 < |s| && s[k + 1].free {
      LinkedMerge(w, base, s, k);
    }
  }

  lemma LeftLinked(w: seq<Word>, base: int, s: seq<Block>, k: int)
    requires |w| == PAGE_WORDS && Placed(s, base) && 0 <= k < |s|
    requires Linked(w, base, s, -1)
    ensures Linked(LeftWords(w, base, s, k), base, MergeLeft(s, k), -1)
  {
    if k > 0 && s[k - 1].free {
      LinkedMerge(w, base, s, k - 1);
    }
  }

  lemma FreeLinked(w: seq<Word>, base: int, s: seq<Block>, k: int)
    requires |w| == PAGE_WORDS && 0 <= k < |s|
    requires base % 16 == 0 && 0 < base && base + PAGE < WORD_LIMIT && Tiles(s, base, base + PAGE)
    requires Linked(w, base, s, -1)
    ensures Linked(FreeWords(w, base, s, k), base, Release(s, k), -1)
  {
    FreeStages(s, base, k);
    LinkedMark(w, base, s, k, -1, true);
    var w1 := Put(w, base, s[k].addr, STATUS, STATUS_FREE);
    RightLinked(w1, base, Marked(s, k), k);
    LeftLinked(RightWords(w1, base, Marked(s, k), k), base, MergeRight(Marked(s, k), k), k);
  }

  lemma RightKeeps(w: seq<Word>, w': seq<Word>, base: int, s: seq<Block>, k: int)
    requires Placed(s, base) && 0 <= k < |s| && s[k].free && PayloadsKept(w, w', base, s)
    ensures PayloadsKept(w, RightWords(w', base, s, k), base, MergeRight(s, k))
  {
    if k + 1 < |s| && s[k + 1].free {
      MergeKeeps(w, w', base, s, k);
      SameLiveKept(w, MergeWords(w', base, s, k), base, s, Merge(s, k), k);
    }
  }

  lemma LeftKeeps(w: seq<Word>, w': seq<Word>, base: int, s: seq<Block>, k: int)
    requires Placed(s, base) && 0 <= k < |s| && s[k].free && PayloadsKept(w, w', base, s)
    ensures PayloadsKept(w, LeftWords(w', base, s, k), base, MergeLeft(s, k))
  {
    if k > 0 && s[k - 1].free {
      MergeKeeps(w, w', base, s, k - 1);
      SameLiveKept(w, MergeWords(w', base, s, k - 1), base, s, Merge(s, k - 1), k - 1);
    }
  }

  lemma MarkKeeps(w: seq<Word>, base: int, s: seq<Block>, k: int)
    requires |w| == PAGE_WORDS && 0 <= k < |s| && Placed(s, base) && Placed(Marked(s, k), base)
    ensures PayloadsKept(w, Put(w, base, s[k].addr, STATUS, STATUS_FREE), base, Marked(s, k))
  {
    HeaderClear(Marked(s, k), base, k);
    PutKeeps(w, w, base, Marked(s, k), s[k].addr, STATUS, STATUS_FREE);
  }

  lemma FreeKeeps(w: seq<Word>, base: int, s: seq<Block>, k: int)
    requires |w| == PAGE_WORDS && 0 <= k < |s|
    requires base % 16 == 0 && 0 < base && base + PAGE < WORD_LIMIT && Tiles(s, base, base + PAGE)
    ensures PayloadsKept(w, FreeWords(w, base, s, k), base, Release(s, k))
  {
    FreeStages(s, base, k);
    MarkKeeps(w, base, s, k);
    var s1, w1 := Marked(s, k), Put(w, base, s[k].addr, STATUS, STATUS_FREE);
    RightKeeps(w, w1, base, s1, k);
    LeftKeeps(w, RightWords(w1, base, s1, k), base, MergeRight(s1, k), k);
  }

  lemma SameLiveKept(w: seq<Word>, w': seq<Word>, base: int, s: seq<Block>, t: seq<Block>, k: nat)
    requires k + 1 < |s| && s[k].free && s[k + 1].free && t == Merge(s, k)
    requires PayloadsKept(w, w', base, s)
    ensures PayloadsKept(w, w', base, t)
  {
    MergeLive(s, k);
    forall b | b in t && !b.free ensures b in s {
      assert b in LiveBlocks(t);
    }
  }

  /** Merging on either side of a free block leaves its status word alone. */
  lemma MergesKeepStatus(w: seq<Word>, base: int, s: seq<Block>, k: int)
    requires |w| == PAGE_WORDS && Placed(s, base) && 0 <= k < |s|
    ensures Entry(RightWords(w, base, s, k), base, s[k].addr).status == Entry(w, base, s[k].addr).status
    ensures Entry(LeftWords(w, base, s, k), base, s[k].addr).status == Entry(w, base, s[k].addr).status
  {
    if k + 1 < |s| && s[k + 1].free {
      MergeWordsAt(w, base, s, k, k);
    }
    if k > 0 && s[k - 1].free {
      MergeWordsAt(w, base, s, k - 1, k);
    }
  }

  /** Once freed, a block's old header stays marked free, merged or not. */
  lemma FreedStatus(w: seq<Word>, base: int, s: seq<Block>, k: int)
    requires |w| == PAGE_WORDS && 0 <= k < |s|
    requires base % 16 == 0 && 0 < base && base + PAGE < WORD_LIMIT && Tiles(s, base, base + PAGE)
    ensures OnPage(base, s[k].addr)
    ensures Entry(FreeWords(w, base, s, k), base, s[k].addr).status == STATUS_FREE
  {
    FreeStages(s, base, k);
    var s1, w1 := Marked(s, k), Put(w, base, s[k].addr, STATUS, STATUS_FREE);
    PutHere(w, base, s[k].addr, STATUS, STATUS_FREE);
    MergesKeepStatus(w1, base, s1, k);
    MergesKeepStatus(RightWords(w1, base, s1, k), base, MergeRight(s1, k), k);
  }

  /** All that `kfree` promises about the page it leaves behind. */
  lemma FreeOutcome(w: seq<Word>, base: int, s: seq<Block>, k: int)
    requires |w| == PAGE_WORDS && 0 <= k < |s| && !s[k].free
    requires base % 16 == 0 && 0 < base && base + PAGE < WORD_LIMIT && Invariant(s, base)
    requires Linked(w, base, s, -1)
    ensures Invariant(Release(s, k), base)
    ensures Linked(FreeWords(w, base, s, k), base, Release(s, k), -1)
    ensures PayloadsKept(w, FreeWords(w, base, s, k), base, Release(s, k))
    ensures OnPage(base, s[k].addr)
    ensures Entry(FreeWords(w, base, s, k), base, s[k].addr).status == STATUS_FREE
  {
    ReleaseTiles(s, k, base, base + PAGE);
    ReleaseCanonical(s, k);
    FreeLinked(w, base, s, k);
    FreeKeeps(w, base, s, k);
    FreedStatus(w, base, s, k);
  }

  // ----- the search loop

  /** The address of block `i`, NULL when there is no such block. */
  function AddrAt(s: seq<Block>, i: int): int {
    if 0 <= i < |s| then s[i].addr else 0
  }

  /** What the loop of `find_best_fit` knows after `i` blocks; `best` is -1 when nothing that can
      be split has been seen. */
  ghost predicate BestSoFar(s: seq<Block>, size: nat, i: int, best: int) {
    && 0 <= i <= |s| && -1 <= best < i
    && (forall j :: 0 <= j < i ==> !ExactFit(s[j], size))
    && (best == -1 ==> forall j :: 0 <= j < i ==> !Splittable(s[j], size))
    && (best >= 0 ==>
          && Splittable(s[best], size)
          && (forall j :: 0 <= j < i && Splittable(s[j], size) ==> s[best].size <= s[j].size)
          && (forall j :: 0 <= j < best && Splittable(s[j], size) ==> s[best].size < s[j].size))
  }

  lemma ExactIsBest(s: seq<Block>, size: nat, i: int, best: int)
    requires BestSoFar(s, size, i, best) && i < |s| && ExactFit(s[i], size)
    ensures Fit(s, size) == Some(i)
  {
    HeapRuns.FitUnique(s, size, i);
  }

  lemma BestAtEnd(s: seq<Block>, size: nat, i: int, best: int)
    requires BestSoFar(s, size, i, best) && i == |s|
    ensures Fit(s, size) == if best >= 0 then Some(best) else None
    ensures best >= 0 ==> !ExactFit(s[best], size)
  {
    if best >= 0 {
      HeapRuns.FitUnique(s, size, best);
    } else {
      HeapRuns.FitComplete(s, size);
    }
  }

  // ----- the allocator

  class KernelHeap {
    const base: Word          // heap_start
    const page: array<Word>   // the memory at heap_start
    var head: Word            // the first header
    ghost var blocks: seq<Block>

    /** What `main` provides: a page-aligned page inside the address space. */
    predicate Shape() {
      page.Length == PAGE_WORDS && base % PAGE == 0 && 0 < base && base + PAGE < WORD_LIMIT
    }

    ghost predicate Valid()
      reads this, page
    {
      && Shape()
      && Invariant(blocks, base)
      && head == base
      && Linked(page[..], base, blocks, -1)
    }

    /** A page with arbitrary contents. */
    constructor (heapStart: Word)
      requires heapStart % PAGE == 0 && 0 < heapStart && heapStart + PAGE < WORD_LIMIT
      ensures Shape() && base == heapStart && fresh(page)
    {
      base := heapStart;
      page := new Word[PAGE_WORDS];
      head := 0;
      blocks := [];
    }

    function Field(node: Word, field: int): Word
      requires Shape() && OnPage(base, node) && 0 <= field < 4
      reads page
    {
      page[Slot(base, node, field)]
    }

    method SetField(node: Word, field: int, value: Word)
      requires Shape() && OnPage(base, node) && 0 <= field < 4
      modifies page
      ensures page[..] == Put(old(page[..]), base, node, field, value)
    {
      page[Slot(base, node, field)] := value;
    }

    method HeapInit()
      requires Shape()
      modifies this`head, this`blocks, page
      ensures Valid() && blocks == HeapRuns.Initial(base)
      ensures page[..][..4] == [0xAAAA_AAAA, 4080, 0, 0]
    {
      SetField(base, NEXT, 0);
      SetField(base, PREV, 0);
      SetField(base, SIZE, PAGE - HEADER);
      SetField(base, STATUS, STATUS_FREE);
      head := base;
      blocks := HeapRuns.Initial(base);
      HeapRuns.InitialInvariant(base);
      assert LinkedAt(page[..], base, blocks, -1, 0);
    }

    method FindBestFit(size: Word) returns (ret: Word, bestFit: bool)
      requires Valid() && size + HEADER < WORD_LIMIT
      ensures ret == 0 <==> Fit(blocks, size).None?
      ensures ret == 0 <==> forall b :: b in blocks && b.free ==> b.size != size && b.size <= size + 16
      ensures ret != 0 ==> var k := Fit(blocks, size).value;
                           ret == blocks[k].addr && bestFit == ExactFit(blocks[k], size)
    {
      var schNode, nextBest := head, 0;
      ghost var i, best := 0, -1;
      HeadAndAddresses();
      while schNode != 0
        invariant BestSoFar(blocks, size, i, best)
        invariant schNode == AddrAt(blocks, i) && nextBest == AddrAt(blocks, best)
        decreases |blocks| - i
      {
        HeaderFields(i);
        if Field(schNode, STATUS) == STATUS_FREE {
          if Field(schNode, SIZE) == size {
            ExactIsBest(blocks, size, i, best);
            assert blocks[i] in blocks && blocks[i].size == size;
            return schNode, true;
          } else if nextBest != 0 {
            HeaderFields(best);
            if Field(schNode, SIZE) < Field(nextBest, SIZE) && Field(schNode, SIZE) > size + HEADER {
              nextBest, best := schNode, i;
            }
          } else if Field(schNode, SIZE) > size + HEADER {
            nextBest, best := schNode, i;
          }
        }
        schNode := Field(schNode, NEXT);
        i := i + 1;
      }
      BestAtEnd(blocks, size, i, best);
      HeapRuns.FitComplete(blocks, size);
      ret, bestFit := nextBest, false;
    }

    lemma HeadAndAddresses()
      requires Valid()
      ensures base % 16 == 0
      ensures blocks != [] && head == blocks[0].addr
      ensures forall i :: 0 <= i < |blocks| ==> blocks[i].addr > 0
    {
      PageAligned(base);
      TilesOrdered(blocks, base, base + PAGE);
    }

    lemma PlacedBlocks()
      requires Valid()
      ensures Placed(blocks, base)
    {
      PageAligned(base);
      TilesPlaced(blocks, base);
    }

    lemma NextOnPage(k: int)
      requires Valid() && 0 <= k < |blocks|
      ensures NextAddr(blocks, k) != 0 ==> OnPage(base, NextAddr(blocks, k))
    {
      PlacedBlocks();
    }

    /** What the header words of block `i` say. */
    lemma HeaderFields(i: int)
      requires Valid() && 0 <= i < |blocks|
      ensures OnPage(base, blocks[i].addr) && blocks[i].addr > 0
      ensures Field(blocks[i].addr, STATUS) == if blocks[i].free then STATUS_FREE else STATUS_ALLOCATED
      ensures Field(blocks[i].addr, SIZE) == blocks[i].size
      ensures Field(blocks[i].addr, NEXT) == NextAddr(blocks, i) == AddrAt(blocks, i + 1)
      ensures Field(blocks[i].addr, PREV) == PrevAddr(blocks, i)
    {
      assert LinkedAt(page[..], base, blocks, -1, i);
    }

    /** The four words at block `i`: the mark, the size, and the addresses of its neighbours. */
    lemma HeaderWords(i: int)
      requires Valid() && 0 <= i < |blocks|
      ensures var x := (blocks[i].addr - base) / 4;
              && 0 <= x <= 1020
              && page[..][x..x + 4] == [if blocks[i].free then 0xAAAA_AAAA else 0xFFFF_FFFF, blocks[i].size,
                                        NextAddr(blocks, i), PrevAddr(blocks, i)]
    {
      assert LinkedAt(page[..], base, blocks, -1, i);
    }

    /** A block that can be split leaves room for the new header on the page. */
    lemma SplitReady(k: int, size: nat)
      requires Valid() && 0 <= k < |blocks| && Splittable(blocks[k], size) && size % 16 == 0
      ensures Placed(blocks, base) && OnPage(base, CarvedBlock(blocks[k], size).addr)
      ensures NextAddr(blocks, k) != 0 ==> OnPage(base, NextAddr(blocks, k))
    {
      HeadAndAddresses();
      PlacedBlocks();
      CarvedOnPage(blocks, base, k, size);
      NextOnPage(k);
    }

    /** Carves `desiredSize` bytes off the tail of block `k`. The new header's status is left to
        the caller. */
    method BreakChunk(node: Word, desiredSize: Word, ghost k: nat) returns (ret: Word)
      requires Valid() && desiredSize % 16 == 0 && desiredSize + HEADER < WORD_LIMIT
      requires k < |blocks| && node == blocks[k].addr
      modifies this`blocks, page
      ensures Splittable(old(blocks[k]), desiredSize) <==> old(blocks[k].free) && old(blocks[k].size) > desiredSize + 16
      ensures !Splittable(old(blocks[k]), desiredSize) ==>
                ret == 0 && blocks == old(blocks) && page[..] == old(page[..])
      ensures Splittable(old(blocks[k]), desiredSize) ==>
                && OnPage(base, CarvedBlock(old(blocks[k]), desiredSize).addr)
                && Placed(old(blocks), base)
                && ret == CarvedBlock(old(blocks[k]), desiredSize).addr
                && blocks == Carve(old(blocks), k, desiredSize)
                && page[..] == CarveWords(old(page[..]), base, old(blocks), k, desiredSize)
    {
      hide Linked, Invariant, Placed;
      var actualSize := desiredSize + HEADER;
      ret := 0;
      HeaderFields(k);
      if Field(node, STATUS) == STATUS_FREE {
        if Field(node, SIZE) > actualSize {
          SplitReady(k, desiredSize);
          ret := SplitNode(node, desiredSize);
          blocks := Carve(blocks, k, desiredSize);
        }
      }
    }

    /** The pointer surgery of `break_chunk`. */
    method SplitNode(node: Word, desiredSize: Word) returns (newNode: Word)
      requires Shape() && OnPage(base, node) && Field(node, SIZE) > desiredSize + HEADER
      requires var n := node + Field(node, SIZE) - desiredSize; n < WORD_LIMIT && OnPage(base, n)
      requires Field(node, NEXT) != 0 ==> OnPage(base, Field(node, NEXT))
      requires node + HEADER <= node + Field(node, SIZE) - desiredSize
      modifies page
      ensures newNode == node + old(Field(node, SIZE)) - desiredSize
      ensures page[..] == SplitWords(old(page[..]), base, node, old(Field(node, NEXT)), newNode,
                                     old(Field(node, SIZE)) - desiredSize - HEADER, desiredSize)
    {
      SetField(node, SIZE, Field(node, SIZE) - (desiredSize + HEADER));
      newNode := node + (Field(node, SIZE) + HEADER);
      SetField(newNode, SIZE, desiredSize);
      SetField(newNode, NEXT, Field(node, NEXT));
      SetField(newNode, PREV, node);
      if Field(newNode, NEXT) != 0 {
        SetField(Field(newNode, NEXT), PREV, newNode);
      }
      SetField(node, NEXT, newNode);
    }

    method Kmalloc(n: Word) returns (ret: Word)
      requires Valid()
      modifies this`blocks, page
      ensures Valid()
      ensures (blocks, ret as nat) == HeapBlocks.Kmalloc(old(blocks), n)
      ensures ret == 0 <==> n == 0 || forall b :: b in old(blocks) && b.free ==> b.size != Rounded(n) && b.size <= Rounded(n) + 16
      ensures PayloadsKept(old(page[..]), page[..], base, old(blocks))
    {
      ret := 0;
      HeapRuns.KmallocFails(blocks, n);
      if n > 0 {
        var size := n;
        if size < MIN_ALLOC {
          size := MIN_ALLOC;
        } else if !IsPowerOfTwo(size) {
          size := (HighestBit(size) * 2) % WORD_LIMIT;
        }
        assert size == Rounded(n);
        RoundedFacts(n);
        var node, bestFit := FindBestFit(size);
        if node != 0 {
          ghost var k := Fit(blocks, size).value;
          ret := Take(node, size, bestFit, k);
        }
      }
    }

    lemma RoundedFacts(n: Word)
      ensures Rounded(n) % 16 == 0 && Rounded(n) + HEADER < WORD_LIMIT
    {
      HeapRuns.RoundedMultiple(n);
      HeapRuns.RoundedMeaning(n);
      if n <= 0x8000_0000 {
        assert Pow2(31) == 0x8000_0000 by { PowersOfTwo(); }
        assert Rounded(n) <= Pow2(31);
      }
    }

    /** The rest of `kmalloc` once a block is found. The branch that gives up after a failed
        `break_chunk` cannot be reached. */
    method Take(node: Word, size: Word, bestFit: bool, ghost k: nat) returns (ret: Word)
      requires Valid() && size % 16 == 0 && size + HEADER < WORD_LIMIT
      requires k < |blocks| && (ExactFit(blocks[k], size) || Splittable(blocks[k], size))
      requires node == blocks[k].addr && bestFit == ExactFit(blocks[k], size)
      modifies this`blocks, page
      ensures Valid()
      ensures blocks == Carve(old(blocks), k, size)
      ensures ret == CarvedBlock(old(blocks[k]), size).Payload()
      ensures PayloadsKept(old(page[..]), page[..], base, old(blocks))
    {
      ghost var s, w := blocks, page[..];
      HeadAndAddresses();
      PlacedBlocks();
      CarveTiles(s, k, size, base, base + PAGE);
      CarveCanonical(s, k, size);
      var found := node;
      if !bestFit {
        var nnode := BreakChunk(node, size, k);
        if nnode == 0 {
          assert false;
        } else {
          found := nnode;
        }
      } else {
        blocks := Carve(s, k, size);
        assert CarvedBlock(s[k], size).addr == node;
      }
      CarvedRange(s, k, size);
      AllocLinked(w, base, s, k, size);
      AllocKeeps(w, base, s, k, size);
      SetField(found, STATUS, STATUS_ALLOCATED);
      assert page[..] == AllocWords(w, base, s, k, size);
      ret := found + HEADER;
    }

    lemma CarvedRange(s: seq<Block>, k: nat, size: nat)
      requires Shape() && Placed(s, base) && base % 16 == 0 && Tiles(s, base, base + PAGE) && size % 16 == 0
      requires k < |s| && (ExactFit(s[k], size) || Splittable(s[k], size))
      ensures OnPage(base, CarvedBlock(s[k], size).addr)
    {
      if Splittable(s[k], size) {
        CarvedOnPage(s, base, k, size);
      }
    }

    /** `node` swallows its right neighbour `eaten`: the statements `kfree` runs on either side. */
    method Absorb(node: Word, eaten: Word)
      requires Shape() && OnPage(base, node) && OnPage(base, eaten) && node + HEADER <= eaten
      requires Field(eaten, NEXT) != 0 ==> OnPage(base, Field(eaten, NEXT)) && eaten + HEADER <= Field(eaten, NEXT)
      requires Field(node, SIZE) + Field(eaten, SIZE) + HEADER < WORD_LIMIT
      modifies page
      ensures page[..] == AbsorbWords(old(page[..]), base, node, old(Field(eaten, NEXT)),
                                      old(Field(node, SIZE)) + old(Field(eaten, SIZE)) + HEADER)
    {
      SetField(node, NEXT, Field(eaten, NEXT));
      if Field(node, NEXT) != 0 {
        SetField(Field(node, NEXT), PREV, node);
      }
      SetField(node, SIZE, Field(node, SIZE) + (Field(eaten, SIZE) + HEADER));
    }

    /** The same on a block list that the page represents. */
    method AbsorbBlock(ghost s: seq<Block>, ghost k: nat, node: Word, eaten: Word)
      requires Shape() && Placed(s, base) && k + 1 < |s| && Linked(page[..], base, s, -1)
      requires node == s[k].addr && eaten == s[k + 1].addr
      modifies page
      ensures page[..] == MergeWords(old(page[..]), base, s, k)
    {
      assert LinkedAt(page[..], base, s, -1, k);
      assert LinkedAt(page[..], base, s, -1, k + 1);
      assert s[k].End() <= s[k + 1].addr;
      if k + 2 < |s| {
        assert s[k + 1].End() <= s[k + 2].addr;
      }
      Absorb(node, eaten);
    }

    /** The precondition is what the code needs of its caller: NULL, or a pointer whose header
        position lies on the page and holds the allocated mark only if it is a live block's. */
    method Kfree(ptr: Word)
      requires Valid()
      requires ptr != 0 ==> OnPage(base, ptr - HEADER)
      requires ptr != 0 && Field(ptr - HEADER, STATUS) == STATUS_ALLOCATED ==> IsLive(blocks, ptr)
      modifies this`blocks, page
      ensures Valid()
      ensures blocks == HeapBlocks.Kfree(old(blocks), ptr)
      ensures PayloadsKept(old(page[..]), page[..], base, blocks)
      ensures ptr != 0 ==> Field(ptr - HEADER, STATUS) != STATUS_ALLOCATED
    {
      HeadAndAddresses();
      if ptr != 0 {
        var node := ptr - HEADER;
        if Field(node, STATUS) == STATUS_ALLOCATED {
          ghost var s, w, k := blocks, page[..], LiveIndex(blocks, ptr);
          HeaderFields(k);
          FreeOutcome(w, base, s, k);
          FreeNode(node, s, k);
          blocks := Release(s, k);
        } else {
          NotLive(ptr);
        }
      } else {
        NotLive(ptr);
      }
    }

    lemma NotLive(ptr: Word)
      requires Valid()
      requires ptr == 0 || (OnPage(base, ptr - HEADER) && Field(ptr - HEADER, STATUS) != STATUS_ALLOCATED)
      ensures !IsLive(blocks, ptr)
    {
      if IsLive(blocks, ptr) {
        HeaderFields(LiveIndex(blocks, ptr));
      }
    }

    /** `kfree` of the live block `k`: mark it free, look right, look left. */
    method FreeNode(node: Word, ghost s: seq<Block>, ghost k: nat)
      requires Shape() && base % 16 == 0 && Tiles(s, base, base + PAGE) && Linked(page[..], base, s, -1)
      requires k < |s| && node == s[k].addr
      modifies page
      ensures page[..] == FreeWords(old(page[..]), base, s, k)
    {
      FreeStages(s, base, k);
      LinkedMark(page[..], base, s, k, -1, true);
      assert LinkedAt(page[..], base, s, -1, k);
      var next := Field(node, NEXT);
      var prev := Field(node, PREV);
      SetField(node, STATUS, STATUS_FREE);
      RightLinked(page[..], base, Marked(s, k), k);
      LookRight(node, next, Marked(s, k), k);
      LookLeft(node, prev, MergeRight(Marked(s, k), k), k);
    }

    method LookRight(node: Word, next: Word, ghost s: seq<Block>, ghost k: nat)
      requires Shape() && Placed(s, base) && Linked(page[..], base, s, -1)
      requires k < |s| && node == s[k].addr && next == NextAddr(s, k)
      modifies page
      ensures page[..] == RightWords(old(page[..]), base, s, k)
    {
      if k + 1 < |s| {
        assert LinkedAt(page[..], base, s, -1, k + 1);
      }
      if next != 0 && Field(next, STATUS) == STATUS_FREE {
        AbsorbBlock(s, k, node, next);
      }
    }

    method LookLeft(node: Word, prev: Word, ghost s: seq<Block>, ghost k: nat)
      requires Shape() && Placed(s, base) && Linked(page[..], base, s, -1)
      requires k < |s| && node == s[k].addr && prev == PrevAddr(s, k)
      modifies page
      ensures page[..] == LeftWords(old(page[..]), base, s, k)
    {
      if k > 0 {
        assert LinkedAt(page[..], base, s, -1, k - 1);
      }
      if prev != 0 && Field(prev, STATUS) == STATUS_FREE {
        AbsorbBlock(s, k - 1, prev, node);
      }
    }
  }
}
