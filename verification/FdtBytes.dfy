/** Flattened device trees as bytes: Devicetree Specification, sections 5.2 (header), 5.4 (structure
    block) and 5.5 (strings block), read on a little-endian CPU.
 */
module FdtBytes {
  import opened Bits
  import opened Str
  import opened FdtTree

  // ----- big-endian words

  function Be32(x: Word): (b: seq<Byte>)
    ensures |b| == 4
  {
    [WordByte(x, 3), WordByte(x, 2), WordByte(x, 1), WordByte(x, 0)]
  }

  function WordOf(b0: Byte, b1: Byte, b2: Byte, b3: Byte): Word {
    b0 as int + 0x100 * b1 as int + 0x1_0000 * b2 as int + 0x100_0000 * b3 as int
  }

  /** A 32-bit load on a little-endian CPU. */
  function LoadLe(m: seq<Byte>, a: nat): Word
    requires a + 4 <= |m|
  {
    WordOf(m[a], m[a + 1], m[a + 2], m[a + 3])
  }

  /** `be32_to_cpu` of a field in memory. */
  function ReadBe(m: seq<Byte>, a: nat): Word
    requires a + 4 <= |m|
  {
    EndSwapMeaning(LoadLe(m, a));
    EndSwap(LoadLe(m, a))
  }

  /** The byte swap recovers the number that was stored most significant byte first. */
  lemma ReadBeAt(m: seq<Byte>, a: nat, x: Word)
    requires a + 4 <= |m| && m[a..a + 4] == Be32(x)
    ensures ReadBe(m, a) == x
  {
    var s := m[a..a + 4];
    assert s[0] == m[a] && s[1] == m[a + 1] && s[2] == m[a + 2] && s[3] == m[a + 3];
    var w := LoadLe(m, a);
    LoadedBytes(m[a], m[a + 1], m[a + 2], m[a + 3]);
    EndSwapMeaning(w);
    WordBytes(x);
  }

  /** And every four bytes are the encoding of what is read there. */
  lemma StoredBytes(m: seq<Byte>, a: nat)
    requires a + 4 <= |m|
    ensures m[a..a + 4] == Be32(ReadBe(m, a))
  {
    hide EndSwap, WordByte;
    LoadedBytes(m[a], m[a + 1], m[a + 2], m[a + 3]);
    EndSwapMeaning(LoadLe(m, a));
    assert ReadBe(m, a) == WordOf(m[a + 3], m[a + 2], m[a + 1], m[a]);
    LoadedBytes(m[a + 3], m[a + 2], m[a + 1], m[a]);
  }

  lemma LoadedBytes(b0: Byte, b1: Byte, b2: Byte, b3: Byte)
    ensures var w := WordOf(b0, b1, b2, b3);
            WordByte(w, 0) == b0 && WordByte(w, 1) == b1 && WordByte(w, 2) == b2 && WordByte(w, 3) == b3
  {
    var w := WordOf(b0, b1, b2, b3);
    assert w / 0x100 == b1 as int + 0x100 * b2 as int + 0x1_0000 * b3 as int;
    assert w / 0x1_0000 == b2 as int + 0x100 * b3 as int;
  }

  lemma WordBytes(x: Word)
    ensures x == WordOf(WordByte(x, 0), WordByte(x, 1), WordByte(x, 2), WordByte(x, 3))
  {
    assert x / 0x100 == x / 0x1_0000 * 0x100 + x / 0x100 % 0x100;
    assert x / 0x1_0000 == x / 0x100_0000 * 0x100 + x / 0x1_0000 % 0x100;
  }

  // ----- encoding

  function PadLen(n: nat): nat {
    (4 - n % 4) % 4
  }

  function Zeros(n: nat): (z: seq<Byte>)
    ensures |z| == n
  {
    seq(n, i => 0)
  }

  function Tag(t: Token): Word {
    match t
    case BeginNode(_) => 0x1
    case EndNode => 0x2
    case Prop(_) => 0x3
    case Nop => 0x4
    case End => 0x9
  }

  /** Bytes after the tag, without padding. */
  function Payload(t: Token): seq<Byte>
    requires t.Prop? ==> |t.p.data| < WORD_LIMIT
  {
    match t
    case BeginNode(name) => name + [0]
    case Prop(p) => Be32(|p.data|) + Be32(p.nameOff) + p.data
    case _ => []
  }

  predicate Encodable(t: Token) {
    && (t.Prop? ==> |t.p.data| < WORD_LIMIT)
    && (t.BeginNode? ==> 0 !in t.name)
  }

  function Encode(t: Token): (b: seq<Byte>)
    requires Encodable(t)
    ensures |b| % 4 == 0 && |b| >= 4
  {
    Be32(Tag(t)) + Payload(t) + Zeros(PadLen(|Payload(t)|))
  }

  function Size(t: Token): (n: nat)
    requires Encodable(t)
    ensures n % 4 == 0 && n >= 4
  {
    |Encode(t)|
  }

  predicate AllEncodable(ts: seq<Token>) {
    forall t :: t in ts ==> Encodable(t)
  }

  /** The structure block. */
  function EncodeAll(ts: seq<Token>): (b: seq<Byte>)
    requires AllEncodable(ts)
  {
    if ts == [] then [] else Encode(ts[0]) + EncodeAll(ts[1..])
  }

  // ----- the header

  /** The fields of the header, in their order in the blob. */
  datatype Header = Header(magic: Word, totalSize: Word, offDtStruct: Word, offDtStrings: Word, offMemRsvmap: Word,
                           version: Word, lastCompVersion: Word, bootCpuidPhys: Word,
                           sizeDtStrings: Word, sizeDtStruct: Word)

  function EncodeHeader(h: Header): (b: seq<Byte>)
    ensures |b| == 40
  {
    Be32(h.magic) + Be32(h.totalSize) + Be32(h.offDtStruct) + Be32(h.offDtStrings) + Be32(h.offMemRsvmap)
    + Be32(h.version) + Be32(h.lastCompVersion) + Be32(h.bootCpuidPhys) + Be32(h.sizeDtStrings) + Be32(h.sizeDtStruct)
  }

  ghost predicate HeaderAt(m: seq<Byte>, base: nat, h: Header) {
    base + 40 <= |m| && m[base..base + 40] == EncodeHeader(h)
  }

  /** The fields that the walker reads. */
  lemma HeaderFields(m: seq<Byte>, base: nat, h: Header)
    requires HeaderAt(m, base, h)
    ensures base + 40 <= |m|
    ensures ReadBe(m, base) == h.magic && ReadBe(m, base + 8) == h.offDtStruct && ReadBe(m, base + 12) == h.offDtStrings
  {
    var b := EncodeHeader(h);
    Slice(m, base, b, 0, 4);
    Slice(m, base, b, 8, 12);
    Slice(m, base, b, 12, 16);
    HeaderSlices(h);
    ReadBeAt(m, base, h.magic);
    ReadBeAt(m, base + 8, h.offDtStruct);
    ReadBeAt(m, base + 12, h.offDtStrings);
  }

  lemma HeaderSlices(h: Header)
    ensures EncodeHeader(h)[0..4] == Be32(h.magic)
    ensures EncodeHeader(h)[8..12] == Be32(h.offDtStruct)
    ensures EncodeHeader(h)[12..16] == Be32(h.offDtStrings)
  {
    hide Be32;
  }

  /** The header of test.dtb, byte by byte. */
  lemma SampleHeader()
    ensures EncodeHeader(Header(0xD00D_FEED, 365, 0x38, 0x134, 0x28, 17, 16, 0, 0x39, 0xFC)) ==
            [0xD0, 0x0D, 0xFE, 0xED] + [0, 0, 1, 0x6D] + [0, 0, 0, 0x38] + [0, 0, 1, 0x34] + [0, 0, 0, 0x28]
            + [0, 0, 0, 17] + [0, 0, 0, 16] + [0, 0, 0, 0] + [0, 0, 0, 0x39] + [0, 0, 0, 0xFC]
  {
    hide Be32;
    SampleWords();
  }

  lemma SampleWords()
    ensures Be32(0xD00D_FEED) == [0xD0, 0x0D, 0xFE, 0xED]
    ensures Be32(365) == [0, 0, 1, 0x6D] && Be32(0x134) == [0, 0, 1, 0x34]
    ensures forall x: Byte :: Be32(x) == [0, 0, 0, x]
  {
  }

  /** Tokens byte by byte: a node "derp", and those without data. */
  lemma SampleTokens()
    ensures Encode(BeginNode([100, 101, 114, 112])) == [0, 0, 0, 1, 100, 101, 114, 112, 0, 0, 0, 0]
    ensures Encode(EndNode) == [0, 0, 0, 2] && Encode(Nop) == [0, 0, 0, 4] && Encode(End) == [0, 0, 0, 9]
  {
    SampleTags();
    hide Be32;
  }

  /** A property of three bytes and its padding. */
  lemma SampleProperty()
    ensures Encode(Prop(Property(0x11, [0, 0, 1]))) == [0, 0, 0, 3, 0, 0, 0, 3, 0, 0, 0, 0x11, 0, 0, 1, 0]
  {
    SampleWords();
    hide Be32;
  }

  lemma SampleTags()
    ensures Be32(1) == [0, 0, 0, 1] && Be32(2) == [0, 0, 0, 2] && Be32(4) == [0, 0, 0, 4] && Be32(9) == [0, 0, 0, 9]
  {
  }

  // ----- a stream of tokens in memory

  ghost predicate TokenAt(m: seq<Byte>, a: nat, t: Token) {
    && Encodable(t)
    && 0 < a && a % 4 == 0 && a + Size(t) <= |m|
    && m[a..a + Size(t)] == Encode(t)
  }

  ghost predicate Stream(m: seq<Byte>, a: nat, ts: seq<Token>)
    decreases |ts|
  {
    ts == [] || (TokenAt(m, a, ts[0]) && Stream(m, a + Size(ts[0]), ts[1..]))
  }

  lemma Slice(m: seq<Byte>, a: nat, b: seq<Byte>, i: nat, j: nat)
    requires a + |b| <= |m| && m[a..a + |b|] == b && i <= j <= |b|
    ensures m[a + i..a + j] == b[i..j]
  {
    forall k | 0 <= k < j - i ensures m[a + i..a + j][k] == b[i..j][k] {
      assert m[a..a + |b|][i + k] == b[i + k];
    }
  }

  lemma SplitBlock(m: seq<Byte>, a: nat, b: seq<Byte>, c: seq<Byte>)
    requires a + |b + c| <= |m| && m[a..a + |b + c|] == b + c
    ensures m[a..a + |b|] == b && m[a + |b|..a + |b| + |c|] == c
  {
    Slice(m, a, b + c, 0, |b|);
    Slice(m, a, b + c, |b|, |b + c|);
    assert (b + c)[0..|b|] == b && (b + c)[|b|..|b + c|] == c;
  }

  lemma FirstToken(m: seq<Byte>, a: nat, t: Token, rest: nat)
    requires Encodable(t) && 0 < a && a % 4 == 0 && a + |Encode(t)| + rest <= |m|
    requires m[a..a + |Encode(t)|] == Encode(t)
    ensures TokenAt(m, a, t) && (a + |Encode(t)|) % 4 == 0
  {
    SumAligned(a, Size(t), 4);
  }

  lemma {:induction false} BlockIsStream(m: seq<Byte>, a: nat, ts: seq<Token>)
    requires AllEncodable(ts) && 0 < a && a % 4 == 0
    requires a + |EncodeAll(ts)| <= |m| && m[a..a + |EncodeAll(ts)|] == EncodeAll(ts)
    ensures Stream(m, a, ts)
    decreases |ts|
  {
    hide Encode;
    if ts != [] {
      var b, c := Encode(ts[0]), EncodeAll(ts[1..]);
      assert EncodeAll(ts) == b + c;
      SplitBlock(m, a, b, c);
      FirstToken(m, a, ts[0], |c|);
      BlockIsStream(m, a + |b|, ts[1..]);
      assert Size(ts[0]) == |b|;
    }
  }

  lemma TagField(m: seq<Byte>, a: nat, t: Token)
    requires TokenAt(m, a, t)
    ensures a + 4 <= |m| && ReadBe(m, a) == Tag(t)
  {
    Slice(m, a, Encode(t), 0, 4);
    assert Encode(t)[0..4] == Be32(Tag(t));
    ReadBeAt(m, a, Tag(t));
  }

  /** The fields of a token, as the walker's structures read them. */
  lemma BeginFields(m: seq<Byte>, a: nat, t: Token)
    requires TokenAt(m, a, t) && t.BeginNode?
    ensures CString(m, a + 4, t.name) && Size(t) == 4 + |t.name| + 1 + PadLen(|t.name| + 1)
  {
    var b, n := Encode(t), |t.name|;
    Slice(m, a, b, 4, 4 + n);
    Slice(m, a, b, 4 + n, 4 + n + 1);
    assert b[4..4 + n] == t.name;
    assert b[4 + n..4 + n + 1] == [0];
    assert m[a + 4 + n] == m[a + (4 + n)..a + (4 + n + 1)][0];
  }

  lemma PropFields(m: seq<Byte>, a: nat, t: Token)
    requires TokenAt(m, a, t) && t.Prop?
    ensures a + 12 <= |m| && ReadBe(m, a + 4) == |t.p.data| && ReadBe(m, a + 8) == t.p.nameOff
    ensures Size(t) == 12 + |t.p.data| + PadLen(|t.p.data|)
  {
    var b := Encode(t);
    Slice(m, a, b, 4, 8);
    Slice(m, a, b, 8, 12);
    assert b[4..8] == Be32(|t.p.data|);
    assert b[8..12] == Be32(t.p.nameOff);
    ReadBeAt(m, a + 4, |t.p.data|);
    ReadBeAt(m, a + 8, t.p.nameOff);
    PadShift(|t.p.data|);
  }

  lemma PadShift(n: nat)
    ensures PadLen(8 + n) == PadLen(n)
  {
  }
}
