/** The ATAG list that an ARM boot loader passes (include/util/atag.h), and the memory region that
    `init_get_mem_atag` picks from it (source/mach/vexpress_a9/init/vexpress_init.c).

    Memory is an array of words and a `struct atag *` a word index; NULL is 0.
 */
module Atag {
  import opened Bits
  import opened Types

  const ATAG_NONE: Word := 0x0000_0000
  const ATAG_CORE: Word := 0x5441_0001
  const ATAG_MEM: Word := 0x5441_0002

  /** Header of a tag: its size in words, header included, and its kind. */
  datatype Header = Header(size: Word, tag: Word)

  /** The headers of the list at `p`: sizes of at least two words, ended by the first ATAG_NONE. */
  ghost predicate List(m: seq<Word>, p: nat, hs: seq<Header>)
    decreases |hs|
  {
    && hs != [] && 0 < p && p + 2 <= |m|
    && m[p] == hs[0].size && m[p + 1] == hs[0].tag
    && if |hs| == 1 then hs[0].tag == ATAG_NONE
       else hs[0].tag != ATAG_NONE && hs[0].size >= 2 && List(m, p + hs[0].size, hs[1..])
  }

  /** Addresses of the tags of one kind, in list order. */
  ghost function Instances(p: nat, hs: seq<Header>, tag: Word): seq<nat>
    decreases |hs|
  {
    if |hs| <= 1 then []
    else (if hs[0].tag == tag then [p] else []) + Instances(p + hs[0].size, hs[1..], tag)
  }

  function First(s: seq<nat>): nat {
    if s == [] then 0 else s[0]
  }

  /** The rest of the list from its first tag of one kind on, [] when there is none. */
  ghost function From(hs: seq<Header>, tag: Word): (r: seq<Header>)
    ensures |r| <= |hs| && (r != [] ==> |r| > 1 && r[0].tag == tag)
    decreases |hs|
  {
    if |hs| <= 1 then [] else if hs[0].tag == tag then hs else From(hs[1..], tag)
  }

  lemma {:induction false} FromFirst(m: seq<Word>, p: nat, hs: seq<Header>, tag: Word)
    requires List(m, p, hs)
    ensures First(Instances(p, hs, tag)) == 0 <==> From(hs, tag) == []
    ensures From(hs, tag) == [] ==> Instances(p, hs, tag) == []
    ensures From(hs, tag) != [] ==>
              var q := First(Instances(p, hs, tag));
              && List(m, q, From(hs, tag))
              && Instances(p, hs, tag) == Instances(q, From(hs, tag), tag)
    decreases |hs|
  {
    if |hs| > 1 && hs[0].tag != tag {
      FromFirst(m, p + hs[0].size, hs[1..], tag);
    }
  }

  /** `next_tag` */
  function NextTag(m: seq<Word>, sch: nat): nat
    requires sch < |m|
  {
    sch + m[sch]
  }

  /** The search loop shared by `get_tag` and `get_next_tag`. */
  method Search(m: seq<Word>, start: nat, tag: Word, ghost hs: seq<Header>) returns (ret: nat)
    requires List(m, start, hs)
    ensures ret == First(Instances(start, hs, tag))
  {
    var sch := start;
    ghost var gs := hs;
    ret := 0;
    while m[sch + 1] != ATAG_NONE
      invariant 0 <= sch && List(m, sch, gs)
      invariant First(Instances(start, hs, tag)) == First(Instances(sch, gs, tag))
      invariant ret == 0
      decreases |gs|
    {
      if m[sch + 1] == tag {
        ret := sch;
        return;
      }
      sch := NextTag(m, sch);
      gs := gs[1..];
    }
  }

  /** `get_tag`: the search begins behind the leading CORE tag. */
  method GetTag(m: seq<Word>, atagBase: nat, tag: Word, ghost hs: seq<Header>) returns (ret: nat)
    requires List(m, atagBase, hs)
    ensures ret == if hs[0].tag == ATAG_CORE then First(Instances(atagBase + hs[0].size, hs[1..], tag)) else 0
  {
    ret := 0;
    if m[atagBase + 1] == ATAG_CORE {
      ret := Search(m, NextTag(m, atagBase), tag, hs[1..]);
    }
  }

  /** `get_next_tag` */
  method GetNextTag(m: seq<Word>, sch: nat, tag: Word, ghost hs: seq<Header>) returns (ret: nat)
    requires sch != 0 ==> List(m, sch, hs)
    ensures ret == if sch != 0 && hs[0].tag != ATAG_NONE then First(Instances(sch + hs[0].size, hs[1..], tag)) else 0
  {
    ret := 0;
    if sch != 0 {
      if m[sch + 1] != ATAG_NONE {
        ret := Search(m, NextTag(m, sch), tag, hs[1..]);
      }
    }
  }

  /** `get_tag_count` */
  method GetTagCount(m: seq<Word>, atagBase: nat, tag: Word, ghost hs: seq<Header>) returns (ret: nat)
    requires List(m, atagBase, hs)
    ensures ret == if hs[0].tag == ATAG_CORE then |Instances(atagBase, hs, tag)| else 0
  {
    ret := 0;
    if m[atagBase + 1] == ATAG_CORE {
      var sch := atagBase;
      ghost var gs := hs;
      while m[sch + 1] != ATAG_NONE
        invariant 0 <= sch && List(m, sch, gs)
        invariant ret + |Instances(sch, gs, tag)| == |Instances(atagBase, hs, tag)|
        decreases |gs|
      {
        if m[sch + 1] == tag {
          ret := ret + 1;
        }
        sch := NextTag(m, sch);
        gs := gs[1..];
      }
    }
  }

  /** `tag_exists` */
  method TagExists(m: seq<Word>, atagBase: nat, tag: Word, ghost hs: seq<Header>) returns (ret: bool)
    requires List(m, atagBase, hs)
    ensures ret <==> hs[0].tag == ATAG_CORE && Instances(atagBase, hs, tag) != []
  {
    ret := false;
    if m[atagBase + 1] == ATAG_CORE {
      FromFirst(m, atagBase, hs, tag);
      var found := Search(m, atagBase, tag, hs);
      ret := found != 0;
    }
  }

  // ----- visiting every instance

  /** The tags met by calling `get_next_tag` until NULL, from the tag at `q`; `gs` is the list
      there, [] when `q` is NULL. */
  ghost function Chain(q: nat, gs: seq<Header>, tag: Word): seq<nat>
    decreases |gs|
  {
    if gs == [] then []
    else [q] + Chain(First(Instances(q + gs[0].size, gs[1..], tag)), From(gs[1..], tag), tag)
  }

  /** Searching again and again from the last tag found meets every instance, in list order. */
  lemma {:induction false} ChainIsInstances(m: seq<Word>, p: nat, hs: seq<Header>, tag: Word)
    requires List(m, p, hs)
    ensures Chain(First(Instances(p, hs, tag)), From(hs, tag), tag) == Instances(p, hs, tag)
    decreases |hs|
  {
    FromFirst(m, p, hs, tag);
    var gs := From(hs, tag);
    if gs != [] {
      var q := First(Instances(p, hs, tag));
      ChainIsInstances(m, q + gs[0].size, gs[1..], tag);
    }
  }

  /** What `get_tag` followed by `get_next_tag` until NULL visits. */
  ghost function Visited(p: nat, hs: seq<Header>, tag: Word): seq<nat> {
    if hs != [] && hs[0].tag == ATAG_CORE then
      Chain(First(Instances(p + hs[0].size, hs[1..], tag)), From(hs[1..], tag), tag)
    else []
  }

  /** The visit meets exactly `get_tag_count` tags unless it looks for CORE itself: the search
      skips the leading CORE tag, which the count includes. */
  lemma VisitsAgreeWithCount(m: seq<Word>, p: nat, hs: seq<Header>, tag: Word)
    requires List(m, p, hs) && hs[0].tag == ATAG_CORE
    ensures |Visited(p, hs, tag)| == |Instances(p, hs, tag)| <==> tag != ATAG_CORE
    ensures tag != ATAG_CORE ==> Visited(p, hs, tag) == Instances(p, hs, tag)
  {
    ChainIsInstances(m, p + hs[0].size, hs[1..], tag);
  }

  // ----- the memory region

  /** A memory tag carries two more words. */
  predicate MemTagsSized(hs: seq<Header>) {
    forall h :: h in hs && h.tag == ATAG_MEM ==> h.size >= 4
  }

  /** The regions that the memory tags list: size in word 2 of the tag, start in word 3. */
  ghost function MemRegions(m: seq<Word>, p: nat, hs: seq<Header>): seq<MmReg>
    requires List(m, p, hs) && MemTagsSized(hs)
    decreases |hs|
  {
    if |hs| <= 1 then []
    else if hs[0].tag == ATAG_MEM then
      MemInBounds(m, p, hs);
      [MmReg(m[p + 3], m[p + 2])] + MemRegions(m, p + hs[0].size, hs[1..])
    else MemRegions(m, p + hs[0].size, hs[1..])
  }

  lemma MemInBounds(m: seq<Word>, p: nat, hs: seq<Header>)
    requires List(m, p, hs) && |hs| > 1 && hs[0].tag == ATAG_MEM && MemTagsSized(hs)
    ensures p + 4 <= |m|
  {
    assert hs[0] in hs;
    assert List(m, p + hs[0].size, hs[1..]);
  }

  /** One iteration: extend the region found so far, or replace it by a larger one. */
  function Pick(fnd: MmReg, reg: MmReg): MmReg {
    if (fnd.base + fnd.size) % WORD_LIMIT == reg.base then fnd.(size := (fnd.size + reg.size) % WORD_LIMIT)
    else if fnd.size < reg.size then reg
    else fnd
  }

  function PickAll(fnd: MmReg, regs: seq<MmReg>): MmReg
    decreases |regs|
  {
    if regs == [] then fnd else PickAll(Pick(fnd, regs[0]), regs[1..])
  }

  lemma {:induction false} RegionsFrom(m: seq<Word>, p: nat, hs: seq<Header>)
    requires List(m, p, hs) && MemTagsSized(hs)
    ensures MemTagsSized(From(hs, ATAG_MEM))
    ensures From(hs, ATAG_MEM) == [] ==> MemRegions(m, p, hs) == []
    ensures From(hs, ATAG_MEM) != [] ==>
              && List(m, First(Instances(p, hs, ATAG_MEM)), From(hs, ATAG_MEM))
              && MemRegions(m, p, hs) == MemRegions(m, First(Instances(p, hs, ATAG_MEM)), From(hs, ATAG_MEM))
    decreases |hs|
  {
    FromFirst(m, p, hs, ATAG_MEM);
    if |hs| > 1 && hs[0].tag != ATAG_MEM {
      RegionsFrom(m, p + hs[0].size, hs[1..]);
    }
  }

  /** The first memory tag behind the CORE tag has the first region. */
  lemma FirstMem(m: seq<Word>, p: nat, hs: seq<Header>)
    requires List(m, p, hs) && MemTagsSized(hs) && hs[0].tag == ATAG_CORE
    ensures var q, gs := First(Instances(p + hs[0].size, hs[1..], ATAG_MEM)), From(hs[1..], ATAG_MEM);
            if q == 0 then MemRegions(m, p, hs) == []
            else && |gs| > 1 && List(m, q, gs) && MemTagsSized(gs) && q + 4 <= |m|
                 && MemRegions(m, p, hs) == [MmReg(m[q + 3], m[q + 2])] + MemRegions(m, q + gs[0].size, gs[1..])
  {
    RegionsFrom(m, p + hs[0].size, hs[1..]);
    FromFirst(m, p + hs[0].size, hs[1..], ATAG_MEM);
    var q, gs := First(Instances(p + hs[0].size, hs[1..], ATAG_MEM)), From(hs[1..], ATAG_MEM);
    if q != 0 {
      MemInBounds(m, q, gs);
    }
  }

  /** `init_get_mem_atag`; `out` is None when nothing is written. */
  method InitGetMemAtag(m: seq<Word>, atagBase: nat, hasReg: bool, ghost hs: seq<Header>)
    returns (ret: Errno, out: Option<MmReg>)
    requires List(m, atagBase, hs) && MemTagsSized(hs)
    ensures !hasReg ==> ret == EINVAL && out == None
    ensures var regs := if hs[0].tag == ATAG_CORE then MemRegions(m, atagBase, hs) else [];
            && (hasReg && regs == [] ==> ret == ENOTFND && out == None)
            && (hasReg && regs != [] ==> ret == ESUCC && out == Some(PickAll(regs[0], regs[1..])))
  {
    ret, out := ESUCC, None;
    if hasReg {
      hide MemRegions, Instances, From, First, MemTagsSized, PickAll;
      if hs[0].tag == ATAG_CORE {
        FirstMem(m, atagBase, hs);
      }
      var sch: nat := GetTag(m, atagBase, ATAG_MEM, hs);
      if sch != 0 {
        ghost var gs := From(hs[1..], ATAG_MEM);
        var fnd := MmReg(m[sch + 3], m[sch + 2]);
        fnd := MergeRest(m, sch, fnd, gs);
        out := Some(fnd);
      } else {
        ret := ENOTFND;
      }
    } else {
      ret := EINVAL;
    }
  }

  /** The loop over the remaining memory tags. */
  method MergeRest(m: seq<Word>, first: nat, found: MmReg, ghost hs: seq<Header>) returns (fnd: MmReg)
    requires List(m, first, hs) && |hs| > 1 && MemTagsSized(hs)
    ensures fnd == PickAll(found, MemRegions(m, first + hs[0].size, hs[1..]))
  {
    hide Instances, From, First;
    fnd := found;
    var sch: nat := NextMem(m, first, hs);
    ghost var gs := From(hs[1..], ATAG_MEM);
    while sch != 0
      invariant sch != 0 <==> gs != []
      invariant sch != 0 ==> List(m, sch, gs) && MemTagsSized(gs) && |gs| > 1 && gs[0].tag == ATAG_MEM
      invariant PickAll(found, MemRegions(m, first + hs[0].size, hs[1..])) ==
                if sch != 0 then PickAll(fnd, MemRegions(m, sch, gs)) else fnd
      decreases |gs|
    {
      MemInBounds(m, sch, gs);
      ghost var regs := MemRegions(m, sch, gs);
      assert regs[1..] == MemRegions(m, sch + gs[0].size, gs[1..]);
      if (fnd.base + fnd.size) % WORD_LIMIT == m[sch + 3] {
        fnd := fnd.(size := (fnd.size + m[sch + 2]) % WORD_LIMIT);
      } else if fnd.size < m[sch + 2] {
        fnd := MmReg(m[sch + 3], m[sch + 2]);
      }
      sch := NextMem(m, sch, gs);
      gs := From(gs[1..], ATAG_MEM);
    }
  }

  method NextMem(m: seq<Word>, sch: nat, ghost hs: seq<Header>) returns (ret: nat)
    requires List(m, sch, hs) && |hs| > 1 && MemTagsSized(hs)
    ensures MemTagsSized(From(hs[1..], ATAG_MEM))
    ensures ret != 0 <==> From(hs[1..], ATAG_MEM) != []
    ensures ret != 0 ==> List(m, ret, From(hs[1..], ATAG_MEM))
    ensures ret != 0 ==> MemRegions(m, sch + hs[0].size, hs[1..]) == MemRegions(m, ret, From(hs[1..], ATAG_MEM))
    ensures ret == 0 ==> MemRegions(m, sch + hs[0].size, hs[1..]) == []
  {
    RegionsFrom(m, sch + hs[0].size, hs[1..]);
    FromFirst(m, sch + hs[0].size, hs[1..], ATAG_MEM);
    ret := GetNextTag(m, sch, ATAG_MEM, hs);
  }

  // ----- what the region is

  predicate Contains(reg: MmReg, a: int) {
    reg.base <= a < reg.base + reg.size
  }

  ghost predicate Listed(regs: seq<MmReg>, a: int) {
    exists g :: g in regs && Contains(g, a)
  }

  /** No region reaches the end of the address space. */
  predicate NoWrap(regs: seq<MmReg>) {
    forall g :: g in regs ==> g.base + g.size < WORD_LIMIT
  }

  lemma {:induction false} PickAllSound(fnd: MmReg, regs: seq<MmReg>, all: seq<MmReg>)
    requires fnd.base + fnd.size < WORD_LIMIT && (forall a: int :: Contains(fnd, a) ==> Listed(all, a))
    requires NoWrap(all) && forall g :: g in regs ==> g in all
    ensures var r := PickAll(fnd, regs);
            && r.base + r.size < WORD_LIMIT && r.size >= fnd.size
            && (forall a: int :: Contains(r, a) ==> Listed(all, a))
            && (forall g :: g in regs ==> r.size >= g.size)
    decreases |regs|
  {
    if regs != [] {
      var g := regs[0];
      assert g in all;
      var next := Pick(fnd, g);
      assert fnd.base + fnd.size == g.base ==> next.base + next.size == g.base + g.size;
      forall a: int | Contains(next, a) ensures Listed(all, a) {
        assert Contains(fnd, a) || Contains(g, a);
      }
      PickAllSound(next, regs[1..], all);
      assert regs == [g] + regs[1..];
    }
  }

  /** Unless some region reaches the end of the address space, the region chosen consists of listed
      memory only and is at least as large as every region listed. */
  lemma ChosenRegion(regs: seq<MmReg>)
    requires regs != [] && NoWrap(regs)
    ensures var r := PickAll(regs[0], regs[1..]);
            && (forall a: int :: Contains(r, a) ==> Listed(regs, a))
            && (forall g :: g in regs ==> r.size >= g.size)
  {
    assert regs[0] in regs;
    forall a: int | Contains(regs[0], a) ensures Listed(regs, a) {
    }
    PickAllSound(regs[0], regs[1..], regs);
    assert regs == [regs[0]] + regs[1..];
  }

  /** It need not be the largest run of adjacent regions, as the comment in the source says: two
      neighbours that are each smaller than an earlier region are missed. */
  lemma ChosenRegionNotLargest()
    ensures var regs := [MmReg(0x1000, 0x800), MmReg(0x4000, 0x600), MmReg(0x4600, 0x600)];
            PickAll(regs[0], regs[1..]) == MmReg(0x1000, 0x800)
            && forall a: int :: 0x4000 <= a < 0x4C00 ==> Listed(regs, a)
  {
    var regs := [MmReg(0x1000, 0x800), MmReg(0x4000, 0x600), MmReg(0x4600, 0x600)];
    var rest, last := [regs[1], regs[2]], [regs[2]];
    assert regs[1..] == rest && rest[1..] == last && last[1..] == [];
    assert PickAll(regs[0], last) == PickAll(regs[0], []) == regs[0];
    assert PickAll(regs[0], rest) == PickAll(regs[0], last);
    forall a: int | 0x4000 <= a < 0x4C00 ensures Listed(regs, a) {
      assert regs[1] in regs && regs[2] in regs;
      assert Contains(regs[1], a) || Contains(regs[2], a);
    }
  }
}
