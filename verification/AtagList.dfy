/** The layout of an ATAG list in memory, as the Linux/ARM booting protocol gives it: each tag is its
    size in words, its number and its data, and a tag with number 0 ends the list.
 */
module AtagList {
  import opened Bits
  import opened Types
  import opened Atag

  datatype Tag =
    | Core(data: seq<Word>)
    | Mem(size: Word, start: Word)
    | Other(number: Word, data: seq<Word>)

  predicate Encodable(t: Tag) {
    && (!t.Mem? ==> 2 + |t.data| < WORD_LIMIT)
    && (t.Other? ==> t.number != 0 && t.number != 0x5441_0001 && t.number != 0x5441_0002)
  }

  function EncodeTag(t: Tag): (w: seq<Word>)
    requires Encodable(t)
    ensures |w| >= 2
  {
    match t
    case Core(data) => [2 + |data|, 0x5441_0001] + data
    case Mem(size, start) => [4, 0x5441_0002, size, start]
    case Other(number, data) => [2 + |data|, number] + data
  }

  predicate AllEncodable(ts: seq<Tag>) {
    forall t :: t in ts ==> Encodable(t)
  }

  /** The words of a list; nothing is said about the size field of the tag that ends it. */
  function EncodeTags(ts: seq<Tag>, last: Word): (w: seq<Word>)
    requires AllEncodable(ts)
  {
    if ts == [] then [last, 0] else EncodeTag(ts[0]) + EncodeTags(ts[1..], last)
  }

  function Headers(ts: seq<Tag>, last: Word): (hs: seq<Header>)
    requires AllEncodable(ts)
    ensures |hs| == |ts| + 1
  {
    if ts == [] then [Header(last, 0)]
    else [Header(EncodeTag(ts[0])[0], EncodeTag(ts[0])[1])] + Headers(ts[1..], last)
  }

  /** The memory that a list describes. */
  function Regions(ts: seq<Tag>): seq<MmReg> {
    if ts == [] then []
    else (if ts[0].Mem? then [MmReg(base := ts[0].start, size := ts[0].size)] else []) + Regions(ts[1..])
  }

  /** How many tags of a list have a number. */
  function CountOf(ts: seq<Tag>, number: Word): nat
    requires AllEncodable(ts)
  {
    if ts == [] then 0 else (if EncodeTag(ts[0])[1] == number then 1 else 0) + CountOf(ts[1..], number)
  }

  lemma SplitWords(m: seq<Word>, p: nat, b: seq<Word>, c: seq<Word>)
    requires p + |b + c| <= |m| && m[p..p + |b + c|] == b + c
    ensures forall i :: 0 <= i < |b| ==> m[p + i] == b[i]
    ensures m[p + |b|..p + |b| + |c|] == c
  {
    var s := m[p..p + |b + c|];
    assert forall i :: 0 <= i < |b| ==> m[p + i] == s[i];
    assert m[p + |b|..p + |b| + |c|] == s[|b|..];
    assert (b + c)[|b|..] == c;
  }

  /** The words of the list `ts` stand at `p`. */
  ghost predicate ListAt(m: seq<Word>, p: nat, ts: seq<Tag>, last: Word) {
    && AllEncodable(ts) && 0 < p && p + |EncodeTags(ts, last)| <= |m|
    && m[p..p + |EncodeTags(ts, last)|] == EncodeTags(ts, last)
  }

  lemma FirstTag(m: seq<Word>, p: nat, ts: seq<Tag>, last: Word)
    requires ListAt(m, p, ts, last) && ts != []
    ensures AllEncodable(ts) && Encodable(ts[0]) && 0 < p && p + |EncodeTag(ts[0])| <= |m|
    ensures ListAt(m, p + |EncodeTag(ts[0])|, ts[1..], last)
    ensures forall i :: 0 <= i < |EncodeTag(ts[0])| ==> m[p + i] == EncodeTag(ts[0])[i]
  {
    hide EncodeTag;
    var b, c := EncodeTag(ts[0]), EncodeTags(ts[1..], last);
    assert EncodeTags(ts, last) == b + c;
    SplitWords(m, p, b, c);
  }

  /** The first two words of a tag. */
  lemma TagHeader(t: Tag)
    requires Encodable(t)
    ensures EncodeTag(t)[0] == |EncodeTag(t)| && EncodeTag(t)[1] != ATAG_NONE
    ensures EncodeTag(t)[1] == ATAG_MEM <==> t.Mem?
    ensures EncodeTag(t)[1] == ATAG_CORE <==> t.Core?
    ensures t.Mem? ==> |EncodeTag(t)| == 4
  {
  }

  lemma HeadersRest(ts: seq<Tag>, last: Word)
    requires AllEncodable(ts) && ts != []
    ensures Headers(ts, last)[0] == Header(EncodeTag(ts[0])[0], EncodeTag(ts[0])[1])
    ensures Headers(ts, last)[1..] == Headers(ts[1..], last)
  {
  }

  /** The tag at `p` and the header that stands for it. */
  lemma TagStart(m: seq<Word>, p: nat, ts: seq<Tag>, last: Word)
    requires ListAt(m, p, ts, last) && ts != []
    ensures AllEncodable(ts) && AllEncodable(ts[1..]) && 0 < p && p + 2 <= |m| && |Headers(ts, last)| > 1
    ensures var hs := Headers(ts, last);
            && m[p] == hs[0].size && m[p + 1] == hs[0].tag && hs[1..] == Headers(ts[1..], last)
            && hs[0].tag != ATAG_NONE && hs[0].size >= 2 && (hs[0].tag == ATAG_MEM ==> hs[0].size >= 4)
            && ListAt(m, p + hs[0].size, ts[1..], last)
  {
    hide EncodeTag, EncodeTags;
    FirstTag(m, p, ts, last);
    TagHeader(ts[0]);
    HeadersRest(ts, last);
    assert m[p + 0] == EncodeTag(ts[0])[0];
  }

  lemma ListCons(m: seq<Word>, p: nat, hs: seq<Header>)
    requires |hs| > 1 && 0 < p && p + 2 <= |m| && m[p] == hs[0].size && m[p + 1] == hs[0].tag
    requires hs[0].tag != ATAG_NONE && hs[0].size >= 2 && List(m, p + hs[0].size, hs[1..])
    ensures List(m, p, hs)
  {
  }

  lemma RegionsCons(m: seq<Word>, p: nat, hs: seq<Header>)
    requires |hs| > 1 && List(m, p, hs) && MemTagsSized(hs)
    ensures List(m, p + hs[0].size, hs[1..]) && MemTagsSized(hs[1..])
    ensures hs[0].tag == ATAG_MEM ==> p + 4 <= |m|
    ensures MemRegions(m, p, hs) == (if hs[0].tag == ATAG_MEM then [MmReg(m[p + 3], m[p + 2])] else [])
                                    + MemRegions(m, p + hs[0].size, hs[1..])
  {
    if hs[0].tag == ATAG_MEM { MemInBounds(m, p, hs); }
  }

  /** The encoded words are a list with these headers. */
  lemma {:induction false} EncodedList(m: seq<Word>, p: nat, ts: seq<Tag>, last: Word)
    requires ListAt(m, p, ts, last)
    ensures AllEncodable(ts) && List(m, p, Headers(ts, last)) && MemTagsSized(Headers(ts, last))
    decreases |ts|
  {
    hide List, Headers, MemTagsSized, AllEncodable, ListAt;
    if ts == [] {
      LastTag(m, p, last);
    } else {
      TagStart(m, p, ts, last);
      EncodedList(m, p + Headers(ts, last)[0].size, ts[1..], last);
      ListCons(m, p, Headers(ts, last));
      FirstSized(Headers(ts, last));
    }
  }

  lemma LastTag(m: seq<Word>, p: nat, last: Word)
    requires ListAt(m, p, [], last)
    ensures AllEncodable([]) && List(m, p, Headers([], last)) && MemTagsSized(Headers([], last))
    ensures MemRegions(m, p, Headers([], last)) == Regions([]) && Headers([], last)[0].tag != ATAG_CORE
  {
    assert m[p] == m[p..p + 2][0] && m[p + 1] == m[p..p + 2][1];
  }

  lemma FirstSized(hs: seq<Header>)
    requires hs != [] && MemTagsSized(hs[1..]) && (hs[0].tag == ATAG_MEM ==> hs[0].size >= 4)
    ensures MemTagsSized(hs)
  {
    assert hs == [hs[0]] + hs[1..];
  }

  /** The memory found in an encoded list is the memory it describes. */
  lemma {:induction false} EncodedRegions(m: seq<Word>, p: nat, ts: seq<Tag>, last: Word)
    requires ListAt(m, p, ts, last)
    ensures List(m, p, Headers(ts, last)) && MemTagsSized(Headers(ts, last))
    ensures MemRegions(m, p, Headers(ts, last)) == Regions(ts)
    ensures Headers(ts, last)[0].tag == ATAG_CORE <==> ts != [] && ts[0].Core?
    decreases |ts|
  {
    EncodedList(m, p, ts, last);
    hide List, Headers, MemTagsSized, MemRegions, Regions, ListAt, AllEncodable;
    if ts == [] {
      LastTag(m, p, last);
    } else {
      TagStart(m, p, ts, last);
      FirstIsCore(m, p, ts, last);
      EncodedRegions(m, p + Headers(ts, last)[0].size, ts[1..], last);
      RegionsStep(m, p, ts, last);
    }
  }

  lemma FirstIsCore(m: seq<Word>, p: nat, ts: seq<Tag>, last: Word)
    requires ListAt(m, p, ts, last) && ts != []
    ensures Headers(ts, last)[0].tag == ATAG_CORE <==> ts[0].Core?
  {
    HeadersRest(ts, last);
    TagHeader(ts[0]);
  }

  /** Where the two fields of a memory tag stand. */
  lemma MemWords(m: seq<Word>, p: nat, ts: seq<Tag>, last: Word)
    requires ListAt(m, p, ts, last) && ts != [] && ts[0].Mem?
    ensures p + 4 <= |m| && m[p + 2] == ts[0].size && m[p + 3] == ts[0].start
  {
    FirstTag(m, p, ts, last);
    assert EncodeTag(ts[0])[2] == ts[0].size && EncodeTag(ts[0])[3] == ts[0].start;
  }

  lemma RegionsStep(m: seq<Word>, p: nat, ts: seq<Tag>, last: Word)
    requires ListAt(m, p, ts, last) && ts != []
    requires var hs := Headers(ts, last);
             && List(m, p, hs) && MemTagsSized(hs) && List(m, p + hs[0].size, hs[1..]) && MemTagsSized(hs[1..])
             && MemRegions(m, p + hs[0].size, hs[1..]) == Regions(ts[1..])
    ensures MemRegions(m, p, Headers(ts, last)) == Regions(ts)
  {
    hide List, MemTagsSized, EncodeTag, EncodeTags, MemRegions, Headers;
    TagHeader(ts[0]);
    HeadersRest(ts, last);
    RegionsCons(m, p, Headers(ts, last));
    if ts[0].Mem? { MemWords(m, p, ts, last); }
  }

  lemma CountStep(p: nat, ts: seq<Tag>, last: Word, number: Word)
    requires AllEncodable(ts) && ts != [] && AllEncodable(ts[1..])
    requires var hs := Headers(ts, last);
             |hs| > 1 && hs[1..] == Headers(ts[1..], last)
             && |Instances(p + hs[0].size, hs[1..], number)| == CountOf(ts[1..], number)
    ensures |Instances(p, Headers(ts, last), number)| == CountOf(ts, number)
  {
    hide EncodeTag, EncodeTags, AllEncodable;
  }

  /** `get_tag_count` counts the tags of an encoded list that have the number. */
  lemma {:induction false} EncodedCount(m: seq<Word>, p: nat, ts: seq<Tag>, last: Word, number: Word)
    requires ListAt(m, p, ts, last)
    ensures AllEncodable(ts) && |Instances(p, Headers(ts, last), number)| == CountOf(ts, number)
    decreases |ts|
  {
    hide Instances, CountOf, Headers, ListAt, AllEncodable;
    if ts == [] {
      NoneCounted(p, last, number);
    } else {
      TagStart(m, p, ts, last);
      EncodedCount(m, p + Headers(ts, last)[0].size, ts[1..], last, number);
      CountStep(p, ts, last, number);
    }
  }

  lemma NoneCounted(p: nat, last: Word, number: Word)
    ensures AllEncodable([]) && |Instances(p, Headers([], last), number)| == CountOf([], number)
  {
  }
}
