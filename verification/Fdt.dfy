/** source/util/fdt.c: walking a flattened device tree in memory.

    Every method takes, as ghosts, the tokens that the memory holds from its argument on. They
    name the tree that the result is about; the code sees bytes only.
 */
module Fdt {
  import opened Bits
  import opened Str
  import opened FdtTree
  import opened FdtBytes

  const FDT_HEADER_MAGIC := 0xD00D_FEED

  const FDT_BEGIN_NODE := 0x1
  const FDT_END_NODE := 0x2
  const FDT_PROP := 0x3
  const FDT_END := 0x9

  // ----- tag steps

  function UnpaddedSize(t: Token): nat {
    match t
    case BeginNode(name) => 4 + (|name| + 1)
    case Prop(p) => 12 + |p.data|
    case _ => 4
  }

  /** `fdt_get_tag_size` */
  method GetTagSize(m: seq<Byte>, node: nat, ghost t: Token) returns (ret: nat)
    requires node != 0 ==> TokenAt(m, node, t)
    ensures ret == if node != 0 then UnpaddedSize(t) else 0
  {
    ret := 0;
    if node != 0 {
      TagField(m, node, t);
      var tag := ReadBe(m, node);
      if tag == FDT_BEGIN_NODE {
        BeginFields(m, node, t);
        var len := Strlen(m, node + 4, t.name);
        ret := 4 + (len + 1);
      } else if tag == FDT_PROP {
        PropFields(m, node, t);
        ret := 12 + ReadBe(m, node + 4);
      } else {
        ret := 4;
      }
    }
  }

  /** `ALIGN_UP(addr, 4)` */
  function AlignUp(addr: nat): nat
    requires addr + 3 < WORD_LIMIT
  {
    And(addr + 3, Not(3))
  }

  lemma AlignUpPads(addr: nat)
    requires addr + 3 < WORD_LIMIT
    ensures AlignUp(addr) == addr + PadLen(addr)
  {
    assert Pow2(32) == WORD_LIMIT && Pow2(2) == 4 by { PowersOfTwo(); }
    AndHighMask(addr + 3, 2, 32);
    RoundUpFour(addr);
  }

  lemma RoundUpFour(addr: nat)
    ensures addr + 3 - (addr + 3) % 4 == addr + PadLen(addr)
  {
  }

  /** A token's own size, padded from where it starts, is the size of its encoding. */
  lemma PaddedSize(m: seq<Byte>, a: nat, t: Token)
    requires TokenAt(m, a, t)
    ensures a + UnpaddedSize(t) + PadLen(a + UnpaddedSize(t)) == a + Size(t)
  {
    SizeParts(m, a, t);
    var head := if t.BeginNode? then 4 else if t.Prop? then 12 else 4;
    PadFrom(a, UnpaddedSize(t), head, UnpaddedSize(t) - head);
  }

  lemma SizeParts(m: seq<Byte>, a: nat, t: Token)
    requires TokenAt(m, a, t)
    ensures var head := if t.BeginNode? then 4 else if t.Prop? then 12 else 4;
            var n := UnpaddedSize(t) - head;
            n >= 0 && Size(t) == head + n + PadLen(n)
  {
    if t.BeginNode? {
      BeginFields(m, a, t);
    } else if t.Prop? {
      PropFields(m, a, t);
    } else {
      BareSize(t);
    }
  }

  lemma BareSize(t: Token)
    requires !t.BeginNode? && !t.Prop?
    ensures Encodable(t) && Size(t) == 4
  {
  }

  lemma PadFrom(a: nat, size: nat, head: nat, n: nat)
    requires a % 4 == 0 && head % 4 == 0 && size == head + n
    ensures a + size + PadLen(a + size) == a + (head + n + PadLen(n))
  {
  }

  /** The rest of a stream after its first token. */
  ghost predicate Whole(m: seq<Byte>, a: nat, ts: seq<Token>) {
    Stream(m, a, ts) && EndsOnce(ts) && |m| <= WORD_LIMIT
  }

  lemma StreamHead(m: seq<Byte>, a: nat, ts: seq<Token>)
    requires Stream(m, a, ts) && ts != []
    ensures TokenAt(m, a, ts[0]) && Stream(m, a + Size(ts[0]), ts[1..])
    ensures a + 4 <= |m| && (a + Size(ts[0])) % 4 == 0
  {
    SumAligned(a, Size(ts[0]), 4);
  }

  /** A step from any token but the last strictly advances, stays aligned and inside the block. */
  lemma NextInBlock(m: seq<Byte>, a: nat, ts: seq<Token>)
    requires Whole(m, a, ts) && !ts[0].End?
    ensures |ts| > 1 && Whole(m, a + Size(ts[0]), ts[1..])
    ensures a < a + Size(ts[0]) && (a + Size(ts[0])) % 4 == 0 && a + Size(ts[0]) + 4 <= |m|
  {
    assert |ts| > 1;
    assert forall i :: 0 < i < |ts| ==> ts[i] == ts[1..][i - 1];
    StreamHead(m, a + Size(ts[0]), ts[1..]);
  }

  /** `fdt_get_next_tag`: NULL exactly after the end token. */
  method GetNextTag(m: seq<Byte>, node: nat, ghost ts: seq<Token>) returns (ret: nat)
    requires node != 0 ==> Whole(m, node, ts)
    ensures ret == if node != 0 && !ts[0].End? then node + Size(ts[0]) else 0
  {
    ret := 0;
    if node != 0 {
      StreamHead(m, node, ts);
      TagField(m, node, ts[0]);
      EndTag(ts[0]);
      if ReadBe(m, node) != FDT_END {
        NextInBlock(m, node, ts);
        ret := StepOver(m, node, ts[0]);
      }
    }
  }

  lemma EndTag(t: Token)
    ensures Tag(t) == FDT_END <==> t.End?
    ensures Tag(t) == FDT_BEGIN_NODE <==> t.BeginNode?
    ensures Tag(t) == FDT_END_NODE <==> t.EndNode?
    ensures Tag(t) == FDT_PROP <==> t.Prop?
  {
  }

  method StepOver(m: seq<Byte>, node: nat, ghost t: Token) returns (ret: nat)
    requires node != 0 && TokenAt(m, node, t) && node + Size(t) + 4 <= WORD_LIMIT
    ensures ret == node + Size(t)
  {
    PaddedSize(m, node, t);
    var size := GetTagSize(m, node, t);
    AlignUpPads(node + size);
    ret := AlignUp(node + size);
  }

  // ----- nodes

  /** Address of the first node that begins in a stream, 0 when there is none. */
  ghost function FirstNode(a: nat, ts: seq<Token>): nat
    requires AllEncodable(ts)
    decreases |ts|
  {
    if ts == [] then 0
    else if ts[0].BeginNode? then a
    else FirstNode(a + Size(ts[0]), ts[1..])
  }

  /** `fdt_get_next_node` */
  method GetNextNode(m: seq<Byte>, node: nat, ghost ts: seq<Token>) returns (ret: nat)
    requires node != 0 ==> Whole(m, node, ts)
    requires AllEncodable(ts)
    ensures node == 0 ==> ret == 0
    ensures node != 0 ==> ret == FirstNode(node + Size(ts[0]), ts[1..])
  {
    ret := 0;
    if node != 0 {
      var iter: nat := GetNextTag(m, node, ts);
      ghost var us := ts[1..];
      if iter != 0 { NextInBlock(m, node, ts); } else { LastToken(ts); }
      while iter != 0 && ReadBe(m, iter) != FDT_END
        invariant AllEncodable(us)
        invariant iter != 0 ==> Whole(m, iter, us) && iter + 4 <= |m|
        invariant FirstNode(node + Size(ts[0]), ts[1..]) == if iter != 0 then FirstNode(iter, us) else 0
        invariant ret == 0
        decreases |us|
      {
        TagField(m, iter, us[0]);
        if ReadBe(m, iter) == FDT_BEGIN_NODE {
          ret := iter;
          break;
        }
        NextInBlock(m, iter, us);
        iter := GetNextTag(m, iter, us);
        us := us[1..];
      }
      if ret == 0 && iter != 0 {
        TagField(m, iter, us[0]);
        LastToken(us);
        assert FirstNode(iter, us) == 0;
      }
    }
  }

  lemma LastToken(ts: seq<Token>)
    requires EndsOnce(ts) && ts[0].End?
    ensures ts[1..] == []
  {
  }

  // ----- the header

  /** A device tree blob: the header says where the structure block and the strings block are, and
      these hold the tokens `ts` and the property names `names`. */
  ghost predicate Blob(m: seq<Byte>, base: nat, h: Header, ts: seq<Token>, names: map<Word, seq<Byte>>) {
    && 0 < base && HeaderAt(m, base, h) && h.magic == 0xD00D_FEED
    && Whole(m, base + h.offDtStruct, ts)
    && AllEncodable(ts)
    && Named(m, base + h.offDtStrings, ts, names)
  }

  predicate PropNamed(t: Token, names: map<Word, seq<Byte>>) {
    t.Prop? ==> t.p.nameOff in names
  }

  ghost predicate Named(m: seq<Byte>, strings: nat, ts: seq<Token>, names: map<Word, seq<Byte>>) {
    && (forall off :: off in names ==> CString(m, strings + off, names[off]))
    && (forall t :: t in ts ==> PropNamed(t, names))
  }

  /** `is_using_fdt` */
  method IsUsingFdt(m: seq<Byte>, fdtBase: nat) returns (ret: bool)
    requires fdtBase + 4 <= |m|
    ensures ret <==> m[fdtBase..fdtBase + 4] == [0xD0, 0x0D, 0xFE, 0xED]
    ensures ret <==> ReadBe(m, fdtBase) == FDT_HEADER_MAGIC
  {
    MagicBytes();
    StoredBytes(m, fdtBase);
    if m[fdtBase..fdtBase + 4] == Be32(FDT_HEADER_MAGIC) {
      ReadBeAt(m, fdtBase, FDT_HEADER_MAGIC);
    }
    ret := ReadBe(m, fdtBase) == FDT_HEADER_MAGIC;
  }

  lemma MagicBytes()
    ensures Be32(FDT_HEADER_MAGIC) == [0xD0, 0x0D, 0xFE, 0xED]
  {
  }

  /** `fdt_get_root_node`: the first word of the structure block. */
  method GetRootNode(m: seq<Byte>, fdtBase: nat, ghost h: Header) returns (ret: nat)
    requires HeaderAt(m, fdtBase, h)
    ensures ret == if h.magic == 0xD00D_FEED then (fdtBase + h.offDtStruct) % WORD_LIMIT else 0
  {
    hide ReadBe, HeaderAt;
    HeaderFields(m, fdtBase, h);
    ret := 0;
    var fdt := IsUsingFdt(m, fdtBase);
    if fdt {
      ret := (fdtBase + ReadBe(m, fdtBase + 8)) % WORD_LIMIT;
    }
  }

  // ----- finding a node by name

  /** The comparison of `fdt_get_node`: the wanted name is a prefix of the node's, or is a prefix
      of "/" and the node has no name. */
  predicate Matches(key: seq<Byte>, name: seq<Byte>) {
    key <= name || (key <= [47] && name == [])
  }

  /** The name that the code reads behind a tag. A NOP has none, but the word behind it is the next
      tag, whose first byte is 0. */
  function NameAt(t: Token): seq<Byte>
    requires t.BeginNode? || t.Nop?
  {
    if t.BeginNode? then t.name else []
  }

  lemma NameInMemory(m: seq<Byte>, a: nat, ts: seq<Token>)
    requires Whole(m, a, ts) && (ts[0].BeginNode? || ts[0].Nop?)
    ensures CString(m, a + 4, NameAt(ts[0]))
  {
    StreamHead(m, a, ts);
    if ts[0].BeginNode? {
      BeginFields(m, a, ts[0]);
    } else {
      BareSize(ts[0]);
      NextInBlock(m, a, ts);
      StreamHead(m, a + 4, ts[1..]);
      TagStartsZero(m, a + 4, ts[1]);
    }
  }

  lemma TagStartsZero(m: seq<Byte>, a: nat, t: Token)
    requires TokenAt(m, a, t)
    ensures a < |m| && m[a] == 0
  {
    Slice(m, a, Encode(t), 0, 4);
    assert Encode(t)[0..4] == Be32(Tag(t));
    assert m[a] == m[a + 0..a + 4][0] == Be32(Tag(t))[0];
  }

  /** Address of the first matching node of a stream, 0 when there is none. */
  ghost function FindNode(a: nat, ts: seq<Token>, key: seq<Byte>): nat
    requires AllEncodable(ts)
    decreases |ts|
  {
    if ts == [] then 0
    else if ts[0].BeginNode? && Matches(key, ts[0].name) then a
    else FindNode(a + Size(ts[0]), ts[1..], key)
  }

  lemma {:induction false} FindNodeAbove(a: nat, ts: seq<Token>, key: seq<Byte>)
    requires AllEncodable(ts)
    ensures FindNode(a, ts, key) == 0 || FindNode(a, ts, key) >= a
    decreases |ts|
  {
    if ts != [] {
      FindNodeAbove(a + Size(ts[0]), ts[1..], key);
    }
  }

  /** What `fdt_get_node` answers for a structure block at `a`: the search begins at the first word,
      even if that is a NOP. */
  ghost function NodeFound(a: nat, ts: seq<Token>, key: seq<Byte>): nat
    requires AllEncodable(ts) && ts != []
  {
    if ts[0].Nop? && Matches(key, []) then a else FindNode(a, ts, key)
  }

  /** That is the first matching node exactly when no NOP comes first or the name is neither empty
      nor "/". */
  lemma NodeFoundExactly(a: nat, ts: seq<Token>, key: seq<Byte>)
    requires AllEncodable(ts) && ts != [] && 0 < a
    ensures NodeFound(a, ts, key) == FindNode(a, ts, key) <==> !ts[0].Nop? || (key != [] && key != [47])
    ensures NodeFound(a, ts, key) != FindNode(a, ts, key) ==> NodeFound(a, ts, key) == a
  {
    ShortKeys(key);
    if ts[0].Nop? {
      FindNodeAbove(a + Size(ts[0]), ts[1..], key);
    }
  }

  lemma ShortKeys(key: seq<Byte>)
    ensures Matches(key, []) <==> key == [] || key == [47]
  {
    if |key| == 1 && key <= [47] {
      assert key[0] == 47;
    }
  }

  /** The stream from its first node on. */
  ghost function FromNode(ts: seq<Token>): (us: seq<Token>)
    ensures us != [] ==> us[0].BeginNode?
    ensures |us| <= |ts|
    decreases |ts|
  {
    if ts == [] || ts[0].BeginNode? then ts else FromNode(ts[1..])
  }

  lemma {:induction false} FromNodeWhole(m: seq<Byte>, a: nat, ts: seq<Token>, key: seq<Byte>)
    requires AllEncodable(ts) && 0 < a && (ts == [] || Whole(m, a, ts))
    ensures AllEncodable(FromNode(ts))
    ensures FirstNode(a, ts) == 0 <==> FromNode(ts) == []
    ensures FromNode(ts) != [] ==> Whole(m, FirstNode(a, ts), FromNode(ts))
    ensures FindNode(a, ts, key) == FindNode(FirstNode(a, ts), FromNode(ts), key)
    decreases |ts|
  {
    if ts == [] || ts[0].BeginNode? {
    } else if ts[0].End? {
      LastToken(ts);
    } else {
      NextInBlock(m, a, ts);
      FromNodeWhole(m, a + Size(ts[0]), ts[1..], key);
    }
  }

  lemma BlobStart(m: seq<Byte>, base: nat, h: Header, ts: seq<Token>, names: map<Word, seq<Byte>>)
    requires Blob(m, base, h, ts, names)
    ensures Whole(m, base + h.offDtStruct, ts) && AllEncodable(ts) && 0 < base + h.offDtStruct < WORD_LIMIT
  {
    StreamHead(m, base + h.offDtStruct, ts);
  }

  /** `fdt_get_node`; `slash` is the address of the literal "/". */
  method GetNode(m: seq<Byte>, name: nat, fdtBase: nat, slash: nat,
                 ghost key: seq<Byte>, ghost h: Header, ghost ts: seq<Token>, ghost names: map<Word, seq<Byte>>)
    returns (ret: nat)
    requires HeaderAt(m, fdtBase, h)
    requires name != 0 ==> CString(m, name, key)
    requires slash != 0 && CString(m, slash, [47])
    requires h.magic == 0xD00D_FEED ==> Blob(m, fdtBase, h, ts, names) && (ts[0].BeginNode? || ts[0].Nop?)
    ensures ret == if name != 0 && h.magic == 0xD00D_FEED then NodeFound(fdtBase + h.offDtStruct, ts, key) else 0
  {
    hide ReadBe, HeaderAt, CString, NodeFound, Blob, Whole, AllEncodable;
    HeaderFields(m, fdtBase, h);
    ret := 0;
    if name != 0 {
      var fdt := IsUsingFdt(m, fdtBase);
      if fdt {
        BlobStart(m, fdtBase, h, ts, names);
        var root: nat := GetRootNode(m, fdtBase, h);
        ret := SearchNode(m, name, root, slash, key, ts);
      }
    }
  }

  /** The loop of `fdt_get_node`. */
  method SearchNode(m: seq<Byte>, name: nat, first: nat, slash: nat, ghost key: seq<Byte>, ghost ts: seq<Token>)
    returns (ret: nat)
    requires CString(m, name, key) && slash != 0 && CString(m, slash, [47])
    requires first != 0 && Whole(m, first, ts) && AllEncodable(ts) && (ts[0].BeginNode? || ts[0].Nop?)
    ensures ret == NodeFound(first, ts, key)
  {
    var iter := first;
    ghost var us := ts;
    ret := 0;
    while iter != 0
      invariant AllEncodable(us)
      invariant iter != 0 ==> Whole(m, iter, us) && (us[0].BeginNode? || us[0].Nop?)
      invariant NodeFound(first, ts, key) == if iter != 0 then NodeFound(iter, us, key) else 0
      invariant ret == 0
      decreases |us|
    {
      var found := CompareNode(m, name, iter, slash, key, us);
      if found {
        ret := iter;
        break;
      }
      SkipNode(m, iter, us, key);
      iter := GetNextNode(m, iter, us);
      us := FromNode(us[1..]);
    }
  }

  /** The two tests in the loop of `fdt_get_node`. */
  method CompareNode(m: seq<Byte>, name: nat, node: nat, slash: nat, ghost key: seq<Byte>, ghost ts: seq<Token>)
    returns (found: bool)
    requires CString(m, name, key) && slash != 0 && CString(m, slash, [47])
    requires node != 0 && Whole(m, node, ts) && (ts[0].BeginNode? || ts[0].Nop?)
    ensures found <==> Matches(key, NameAt(ts[0]))
  {
    NameInMemory(m, node, ts);
    var c := Strcmp(m, name, node + 4, key, NameAt(ts[0]));
    if c == 0 {
      found := true;
    } else {
      var d := Strcmp(m, name, slash, key, [47]);
      var len := Strlen(m, node + 4, NameAt(ts[0]));
      found := d == 0 && len == 0;
    }
  }

  lemma SkipNode(m: seq<Byte>, a: nat, ts: seq<Token>, key: seq<Byte>)
    requires Whole(m, a, ts) && AllEncodable(ts) && (ts[0].BeginNode? || ts[0].Nop?)
    requires !Matches(key, NameAt(ts[0]))
    ensures var b := FirstNode(a + Size(ts[0]), ts[1..]);
            var us := FromNode(ts[1..]);
            && AllEncodable(us) && |us| < |ts|
            && (b != 0 ==> Whole(m, b, us) && us[0].BeginNode?)
            && NodeFound(a, ts, key) == if b != 0 then NodeFound(b, us, key) else 0
  {
    NextInBlock(m, a, ts);
    FromNodeWhole(m, a + Size(ts[0]), ts[1..], key);
  }

  // ----- properties

  /** Address of the first property before the next node boundary, 0 when there is none. */
  ghost function FirstProp(a: nat, ts: seq<Token>): nat
    requires AllEncodable(ts)
    decreases |ts|
  {
    if ts == [] then 0
    else if ts[0].Prop? then a
    else if ts[0].Nop? then FirstProp(a + Size(ts[0]), ts[1..])
    else 0
  }

  /** The same, for properties whose name starts with `key`. */
  ghost function FindProp(a: nat, ts: seq<Token>, names: map<Word, seq<Byte>>, key: seq<Byte>): nat
    requires AllEncodable(ts) && forall t :: t in ts ==> PropNamed(t, names)
    decreases |ts|
  {
    if ts == [] then 0
    else if ts[0].Prop? then
      assert PropNamed(ts[0], names);
      if key <= names[ts[0].p.nameOff] then a else FindProp(a + Size(ts[0]), ts[1..], names, key)
    else if ts[0].Nop? then FindProp(a + Size(ts[0]), ts[1..], names, key)
    else 0
  }

  predicate AtBoundary(t: Token) {
    t.BeginNode? || t.EndNode?
  }

  /** `fdt_get_property` */
  method GetProperty(m: seq<Byte>, fdtBase: nat, node: nat, property: nat,
                     ghost key: seq<Byte>, ghost h: Header, ghost ts: seq<Token>, ghost names: map<Word, seq<Byte>>)
    returns (ret: nat)
    requires HeaderAt(m, fdtBase, h)
    requires property != 0 ==> CString(m, property, key)
    requires node != 0 ==> Whole(m, node, ts) && AllEncodable(ts) && Named(m, fdtBase + h.offDtStrings, ts, names)
    ensures node == 0 || property == 0 ==> ret == 0
    ensures node != 0 && property != 0 ==>
              ret == if ts[0].BeginNode? then FindProp(node + Size(ts[0]), ts[1..], names, key) else 0
  {
    ret := 0;
    if node != 0 && property != 0 {
      StreamHead(m, node, ts);
      TagField(m, node, ts[0]);
      EndTag(ts[0]);
      if ReadBe(m, node) == FDT_BEGIN_NODE {
        NextInBlock(m, node, ts);
        var first := GetNextTag(m, node, ts);
        ret := ScanProperties(m, fdtBase, first, property, key, h, ts[1..], names);
      }
    }
  }

  /** The loop of `fdt_get_property`. */
  method ScanProperties(m: seq<Byte>, fdtBase: nat, first: nat, property: nat,
                        ghost key: seq<Byte>, ghost h: Header, ghost ts: seq<Token>, ghost names: map<Word, seq<Byte>>)
    returns (ret: nat)
    requires HeaderAt(m, fdtBase, h) && property != 0 && CString(m, property, key)
    requires first != 0 && Whole(m, first, ts) && AllEncodable(ts) && Named(m, fdtBase + h.offDtStrings, ts, names)
    ensures ret == FindProp(first, ts, names, key)
  {
    ret := 0;
    var node: nat := first;
    ghost var us := ts;
    var done := false;
    done := BoundaryTag(m, node, us);
    while node != 0 && !done
      invariant node != 0 ==> Whole(m, node, us) && AllEncodable(us) && Named(m, fdtBase + h.offDtStrings, us, names)
      invariant node != 0 ==> FindProp(first, ts, names, key) == FindProp(node, us, names, key) && done == AtBoundary(us[0])
      invariant node == 0 ==> FindProp(first, ts, names, key) == 0
      invariant ret == 0
      decreases |us|, node
    {
      StreamHead(m, node, us);
      TagField(m, node, us[0]);
      EndTag(us[0]);
      if ReadBe(m, node) == FDT_PROP {
        var found := CompareProp(m, fdtBase, node, property, key, h, us, names);
        if found {
          ret := node;
          return;
        }
      }
      if us[0].End? {
        LastToken(us);
      } else {
        NextInBlock(m, node, us);
      }
      node := GetNextTag(m, node, us);
      if node != 0 {
        us := us[1..];
        done := BoundaryTag(m, node, us);
      }
    }
  }

  /** The loop condition: the tag is a node boundary. */
  method BoundaryTag(m: seq<Byte>, node: nat, ghost ts: seq<Token>) returns (done: bool)
    requires node != 0 && Whole(m, node, ts)
    ensures done == AtBoundary(ts[0])
  {
    StreamHead(m, node, ts);
    TagField(m, node, ts[0]);
    EndTag(ts[0]);
    done := ReadBe(m, node) == FDT_END_NODE || ReadBe(m, node) == FDT_BEGIN_NODE;
  }

  lemma NameOffField(m: seq<Byte>, node: nat, ts: seq<Token>)
    requires node != 0 && Stream(m, node, ts) && ts != [] && ts[0].Prop?
    ensures node + 12 <= |m| && ReadBe(m, node + 8) == ts[0].p.nameOff
  {
    StreamHead(m, node, ts);
    PropFields(m, node, ts[0]);
  }

  /** `strcmp(property, fdt_get_string(...)) == 0` */
  method CompareProp(m: seq<Byte>, fdtBase: nat, node: nat, property: nat,
                     ghost key: seq<Byte>, ghost h: Header, ghost ts: seq<Token>, ghost names: map<Word, seq<Byte>>)
    returns (found: bool)
    requires HeaderAt(m, fdtBase, h) && property != 0 && CString(m, property, key)
    requires node != 0 && Stream(m, node, ts) && ts != [] && ts[0].Prop?
    requires Named(m, fdtBase + h.offDtStrings, ts, names)
    ensures PropNamed(ts[0], names)
    ensures found <==> key <= names[ts[0].p.nameOff]
  {
    assert PropNamed(ts[0], names) && CString(m, fdtBase + h.offDtStrings + ts[0].p.nameOff, names[ts[0].p.nameOff]);
    hide ReadBe, HeaderAt, CString, Stream, Named;
    NameOffField(m, node, ts);
    HeaderFields(m, fdtBase, h);
    var propStr := fdtBase + ReadBe(m, node + 8) + ReadBe(m, fdtBase + 12);
    var c := Strcmp(m, property, propStr, key, names[ts[0].p.nameOff]);
    found := c == 0;
  }

  /** `fdt_get_next_property` */
  method GetNextProperty(m: seq<Byte>, prop: nat, ghost ts: seq<Token>) returns (ret: nat)
    requires prop != 0 ==> Whole(m, prop, ts)
    requires AllEncodable(ts)
    ensures prop == 0 ==> ret == 0
    ensures prop != 0 ==> ret == FirstProp(prop + Size(ts[0]), ts[1..])
  {
    ret := 0;
    if prop != 0 {
      var iter: nat := GetNextTag(m, prop, ts);
      ghost var us := ts[1..];
      if iter != 0 { NextInBlock(m, prop, ts); } else { LastToken(ts); }
      var done := iter == 0;
      if iter != 0 { done := BoundaryTag(m, iter, us); }
      while iter != 0 && !done
        invariant AllEncodable(us)
        invariant iter != 0 ==> Whole(m, iter, us) && done == AtBoundary(us[0])
        invariant FirstProp(prop + Size(ts[0]), ts[1..]) == if iter != 0 then FirstProp(iter, us) else 0
        invariant ret == 0
        decreases |us|, iter
      {
        StreamHead(m, iter, us);
        TagField(m, iter, us[0]);
        EndTag(us[0]);
        if ReadBe(m, iter) == FDT_PROP {
          return iter;
        }
        if us[0].End? { LastToken(us); } else { NextInBlock(m, iter, us); }
        iter := GetNextTag(m, iter, us);
        if iter != 0 {
          us := us[1..];
          done := BoundaryTag(m, iter, us);
        }
      }
    }
  }
}
