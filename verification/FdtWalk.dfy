/** What the walker of module Fdt finds, in terms of the tree that was flattened. */
module FdtWalk {
  import opened Bits
  import opened FdtTree
  import opened FdtBytes
  import opened Fdt

  // ----- the k-th node of a stream

  /** The stream from its k-th node on. */
  ghost function NodeStream(ts: seq<Token>, k: nat): (us: seq<Token>)
    requires k < |Views(ts)|
    ensures us != [] && us[0].BeginNode?
    decreases |ts|
  {
    if ts[0].BeginNode? then (if k == 0 then ts else NodeStream(ts[1..], k - 1))
    else NodeStream(ts[1..], k)
  }

  /** The address of the k-th node. */
  ghost function NodeAddr(a: nat, ts: seq<Token>, k: nat): nat
    requires AllEncodable(ts) && k < |Views(ts)|
    decreases |ts|
  {
    if ts[0].BeginNode? then (if k == 0 then a else NodeAddr(a + Size(ts[0]), ts[1..], k - 1))
    else NodeAddr(a + Size(ts[0]), ts[1..], k)
  }

  lemma ViewsCount(ts: seq<Token>)
    ensures ts == [] ==> |Views(ts)| == 0
    ensures ts != [] ==> |Views(ts)| == |Views(ts[1..])| + (if ts[0].BeginNode? then 1 else 0)
  {
  }

  lemma NodeAddrStep(a: nat, ts: seq<Token>, k: nat)
    requires AllEncodable(ts) && ts != [] && k < |Views(ts)| && !(ts[0].BeginNode? && k == 0)
    ensures var i := if ts[0].BeginNode? then k - 1 else k;
            i < |Views(ts[1..])| && NodeAddr(a, ts, k) == NodeAddr(a + Size(ts[0]), ts[1..], i)
  {
    ViewsCount(ts);
  }

  lemma {:induction false} NodeStreamView(ts: seq<Token>, k: nat)
    requires AllEncodable(ts) && k < |Views(ts)|
    ensures var us := NodeStream(ts, k);
            AllEncodable(us) && Views(ts)[k] == View(us[0].name, OwnProps(us[1..]))
    decreases |ts|
  {
    if ts[0].BeginNode? {
      if k > 0 {
        NodeStreamView(ts[1..], k - 1);
      }
    } else {
      NodeStreamView(ts[1..], k);
    }
  }

  /** The k-th node really is in memory at its address. */
  lemma {:induction false} NodeInMemory(m: seq<Byte>, a: nat, ts: seq<Token>, k: nat)
    requires Whole(m, a, ts) && AllEncodable(ts) && k < |Views(ts)|
    ensures Whole(m, NodeAddr(a, ts, k), NodeStream(ts, k))
    ensures a <= NodeAddr(a, ts, k) && NodeAddr(a, ts, k) % 4 == 0
    decreases |ts|
  {
    hide Views, Size, TokenAt;
    StreamHead(m, a, ts);
    if ts[0].BeginNode? && k == 0 {
    } else {
      ViewsRest(ts);
      NextInBlock(m, a, ts);
      NodeInMemory(m, a + Size(ts[0]), ts[1..], if ts[0].BeginNode? then k - 1 else k);
    }
  }

  lemma ViewsRest(ts: seq<Token>)
    requires EndsOnce(ts)
    ensures ts[0].End? ==> Views(ts) == []
    ensures |Views(ts)| == |Views(ts[1..])| + (if ts[0].BeginNode? then 1 else 0)
  {
    if ts[0].End? {
      LastToken(ts);
    }
  }

  /** The first node of a stream is its node 0. */
  lemma {:induction false} FirstIsZero(m: seq<Byte>, a: nat, ts: seq<Token>)
    requires AllEncodable(ts) && 0 < a && (ts == [] || Whole(m, a, ts))
    ensures FirstNode(a, ts) == if |Views(ts)| > 0 then NodeAddr(a, ts, 0) else 0
    decreases |ts|
  {
    if ts == [] || ts[0].BeginNode? {
    } else if ts[0].End? {
      LastToken(ts);
    } else {
      NextInBlock(m, a, ts);
      FirstIsZero(m, a + Size(ts[0]), ts[1..]);
    }
  }

  /** From the k-th node, the next node is the (k+1)-th, further on in memory, or NULL after the
      last. */
  lemma {:induction false} NextIsSuccessor(m: seq<Byte>, a: nat, ts: seq<Token>, k: nat)
    requires Whole(m, a, ts) && AllEncodable(ts) && k < |Views(ts)|
    ensures AllEncodable(NodeStream(ts, k))
    ensures var us := NodeStream(ts, k);
            FirstNode(NodeAddr(a, ts, k) + Size(us[0]), us[1..]) ==
            if k + 1 < |Views(ts)| then NodeAddr(a, ts, k + 1) else 0
    ensures k + 1 < |Views(ts)| ==> NodeAddr(a, ts, k) < NodeAddr(a, ts, k + 1)
    decreases |ts|
  {
    hide Views, Encode, Stream;
    ViewsRest(ts);
    NextInBlock(m, a, ts);
    var b := a + Size(ts[0]);
    if ts[0].BeginNode? && k == 0 {
      FirstIsZero(m, b, ts[1..]);
      if 1 < |Views(ts)| {
        NodeAddrStep(a, ts, 1);
        NodeInMemory(m, b, ts[1..], 0);
      }
    } else {
      NodeAddrStep(a, ts, k);
      if k + 1 < |Views(ts)| { NodeAddrStep(a, ts, k + 1); }
      NextIsSuccessor(m, b, ts[1..], if ts[0].BeginNode? then k - 1 else k);
    }
  }

  /** Walking from the root with `fdt_get_next_node` visits the nodes of the tree in pre-order,
      each exactly once and each at a higher address than the one before, and then answers NULL.
      At every stop the walker sees that node's name and properties. */
  lemma WalkIsPreorder(m: seq<Byte>, a: nat, root: Node, ts: seq<Token>, k: nat)
    requires Flattens(root, ts) && Whole(m, a, ts) && AllEncodable(ts)
    requires k < |Preorder(root)|
    ensures Views(ts) == Preorder(root)
    ensures Whole(m, NodeAddr(a, ts, k), NodeStream(ts, k)) && AllEncodable(NodeStream(ts, k))
    ensures var us := NodeStream(ts, k);
            && Preorder(root)[k] == View(us[0].name, OwnProps(us[1..]))
            && FirstNode(NodeAddr(a, ts, k) + Size(us[0]), us[1..]) ==
               if k + 1 < |Preorder(root)| then NodeAddr(a, ts, k + 1) else 0
    ensures k + 1 < |Preorder(root)| ==> NodeAddr(a, ts, k) < NodeAddr(a, ts, k + 1)
  {
    FlattenedViews(root, ts);
    NodeStreamView(ts, k);
    NodeInMemory(m, a, ts, k);
    NextIsSuccessor(m, a, ts, k);
  }

  /** `fdt_get_root_node` answers the start of the structure block. That is the root node exactly
      when no NOP comes before it, which the format would allow. */
  lemma RootIsFirstWord(m: seq<Byte>, a: nat, root: Node, ts: seq<Token>)
    requires Flattens(root, ts) && Whole(m, a, ts) && AllEncodable(ts)
    ensures |Preorder(root)| > 0 && Views(ts) == Preorder(root)
    ensures NodeAddr(a, ts, 0) == a <==> !ts[0].Nop?
  {
    FlattenedViews(root, ts);
    FlattenedStart(root, ts);
    if ts[0].Nop? {
      FirstNodeBehind(m, a, ts);
    }
  }

  lemma FirstNodeBehind(m: seq<Byte>, a: nat, ts: seq<Token>)
    requires Whole(m, a, ts) && AllEncodable(ts) && |Views(ts)| > 0 && !ts[0].BeginNode?
    ensures NodeAddr(a, ts, 0) > a
  {
    NodeAddrStep(a, ts, 0);
    if ts[0].End? {
      LastToken(ts);
    } else {
      NextInBlock(m, a, ts);
      NodeInMemory(m, a + Size(ts[0]), ts[1..], 0);
    }
  }

  // ----- the whole walk

  /** Addresses met by calling `fdt_get_next_node` until NULL, from the token at `a`. */
  ghost function Stops(a: nat, ts: seq<Token>): seq<nat>
    requires AllEncodable(ts) && ts != []
    decreases |ts|
  {
    FromNodeEncodable(ts[1..]);
    var us := FromNode(ts[1..]);
    [a] + if us == [] then [] else Stops(FirstNode(a + Size(ts[0]), ts[1..]), us)
  }

  lemma {:induction false} FromNodeEncodable(ts: seq<Token>)
    requires AllEncodable(ts)
    ensures AllEncodable(FromNode(ts))
    decreases |ts|
  {
    if ts != [] && !ts[0].BeginNode? {
      FromNodeEncodable(ts[1..]);
    }
  }

  /** The addresses of all nodes of a stream. */
  ghost function NodeAddrs(a: nat, ts: seq<Token>): seq<nat>
    requires AllEncodable(ts)
    decreases |ts|
  {
    if ts == [] then []
    else (if ts[0].BeginNode? then [a] else []) + NodeAddrs(a + Size(ts[0]), ts[1..])
  }

  lemma {:induction false} NodeAddrsCount(a: nat, ts: seq<Token>)
    requires AllEncodable(ts)
    ensures |NodeAddrs(a, ts)| == |Views(ts)|
    decreases |ts|
  {
    if ts != [] {
      NodeAddrsCount(a + Size(ts[0]), ts[1..]);
    }
  }

  lemma {:induction false} NodeAddrsAt(a: nat, ts: seq<Token>, k: nat)
    requires AllEncodable(ts) && k < |Views(ts)|
    ensures |NodeAddrs(a, ts)| == |Views(ts)| && NodeAddrs(a, ts)[k] == NodeAddr(a, ts, k)
    decreases |ts|
  {
    hide Views, NodeAddrs, Encode;
    NodeAddrsCount(a, ts);
    ViewsCount(ts);
    NodeAddrsRest(a, ts);
    if !(ts[0].BeginNode? && k == 0) {
      NodeAddrStep(a, ts, k);
      NodeAddrsAt(a + Size(ts[0]), ts[1..], if ts[0].BeginNode? then k - 1 else k);
    }
  }

  lemma NodeAddrsRest(a: nat, ts: seq<Token>)
    requires AllEncodable(ts) && ts != []
    ensures NodeAddrs(a, ts) == (if ts[0].BeginNode? then [a] else []) + NodeAddrs(a + Size(ts[0]), ts[1..])
  {
  }

  lemma {:induction false} NodeAddrsFrom(a: nat, ts: seq<Token>)
    requires AllEncodable(ts)
    ensures AllEncodable(FromNode(ts))
    ensures NodeAddrs(a, ts) == if FromNode(ts) == [] then [] else NodeAddrs(FirstNode(a, ts), FromNode(ts))
    decreases |ts|
  {
    if ts != [] && !ts[0].BeginNode? {
      NodeAddrsFrom(a + Size(ts[0]), ts[1..]);
    }
  }

  /** What the walk meets behind its first stop. */
  ghost function LaterStops(b: nat, us: seq<Token>): seq<nat>
    requires AllEncodable(us)
  {
    if us == [] then [] else Stops(b, us)
  }

  lemma StopsRest(a: nat, ts: seq<Token>)
    requires AllEncodable(ts) && ts != [] && AllEncodable(FromNode(ts[1..]))
    ensures Stops(a, ts) == [a] + LaterStops(FirstNode(a + Size(ts[0]), ts[1..]), FromNode(ts[1..]))
  {
  }

  lemma {:induction false} StopsAreNodes(a: nat, ts: seq<Token>)
    requires AllEncodable(ts) && ts != []
    ensures Stops(a, ts) == (if ts[0].BeginNode? then [] else [a]) + NodeAddrs(a, ts)
    decreases |ts|
  {
    hide Stops, NodeAddrs, FirstNode, Encode;
    var b, us := FirstNode(a + Size(ts[0]), ts[1..]), FromNode(ts[1..]);
    NodeAddrsFrom(a + Size(ts[0]), ts[1..]);
    StopsRest(a, ts);
    NodeAddrsRest(a, ts);
    if us != [] {
      StopsAreNodes(b, us);
      assert LaterStops(b, us) == NodeAddrs(b, us);
    }
  }

  /** A device tree blob: the header says where the bytes of the flattened tree are. */
  ghost predicate BlobOf(m: seq<Byte>, base: nat, h: Header, root: Node, ts: seq<Token>) {
    && 0 < base && |m| <= WORD_LIMIT && HeaderAt(m, base, h) && h.magic == 0xD00D_FEED
    && Flattens(root, ts) && AllEncodable(ts)
    && var a := base + h.offDtStruct;
    a % 4 == 0 && a + |EncodeAll(ts)| <= |m| && m[a..a + |EncodeAll(ts)|] == EncodeAll(ts)
  }

  /** From bytes to tree: on the blob of any tree, the walk that starts where `fdt_get_root_node`
      points stops at every node once, in pre-order, with that node's name and properties, after one
      extra stop at the first word if that is a NOP. */
  lemma BlobWalkIsPreorder(m: seq<Byte>, base: nat, h: Header, root: Node, ts: seq<Token>)
    requires BlobOf(m, base, h, root, ts)
    ensures ts != [] && Whole(m, base + h.offDtStruct, ts) && (ts[0].BeginNode? || ts[0].Nop?)
    ensures var a := base + h.offDtStruct;
            && Stops(a, ts) == (if ts[0].Nop? then [a] else []) + NodeAddrs(a, ts)
            && |NodeAddrs(a, ts)| == |Preorder(root)| == |Views(ts)|
            && forall k :: 0 < k < |Preorder(root)| ==> NodeAddrs(a, ts)[k - 1] < NodeAddrs(a, ts)[k]
    ensures var a := base + h.offDtStruct;
            forall k :: 0 <= k < |Preorder(root)| ==>
                          && NodeAddrs(a, ts)[k] == NodeAddr(a, ts, k)
                          && Whole(m, NodeAddr(a, ts, k), NodeStream(ts, k))
                          && Preorder(root)[k] == View(NodeStream(ts, k)[0].name, OwnProps(NodeStream(ts, k)[1..]))
  {
    var a := base + h.offDtStruct;
    BlockIsStream(m, a, ts);
    FlattenedEndsOnce(root, ts);
    FlattenedViews(root, ts);
    FlattenedStart(root, ts);
    StopsAreNodes(a, ts);
    NodeAddrsCount(a, ts);
    forall k | 0 <= k < |Preorder(root)|
      ensures NodeAddrs(a, ts)[k] == NodeAddr(a, ts, k)
      ensures Whole(m, NodeAddr(a, ts, k), NodeStream(ts, k))
      ensures Preorder(root)[k] == View(NodeStream(ts, k)[0].name, OwnProps(NodeStream(ts, k)[1..]))
    {
      NodeAddrsAt(a, ts, k);
      WalkIsPreorder(m, a, root, ts, k);
    }
    NodesRise(m, a, root, ts);
  }

  lemma NodesRise(m: seq<Byte>, a: nat, root: Node, ts: seq<Token>)
    requires Flattens(root, ts) && Whole(m, a, ts) && AllEncodable(ts)
    ensures |NodeAddrs(a, ts)| == |Preorder(root)|
    ensures forall k :: 0 < k < |Preorder(root)| ==> NodeAddrs(a, ts)[k - 1] < NodeAddrs(a, ts)[k]
  {
    hide NodeAddrs, NodeAddr, NodeStream, Preorder, Views, Flattens, Whole, AllEncodable;
    FlattenedViews(root, ts);
    NodeAddrsCount(a, ts);
    forall k | 0 < k < |Preorder(root)| ensures NodeAddrs(a, ts)[k - 1] < NodeAddrs(a, ts)[k] {
      NodeAddrsAt(a, ts, k - 1);
      NodeAddrsAt(a, ts, k);
      WalkIsPreorder(m, a, root, ts, k - 1);
    }
  }

  /** A structure block begins with the root or with a NOP. */
  lemma FlattenedStart(root: Node, ts: seq<Token>)
    requires Flattens(root, ts)
    ensures ts[0].BeginNode? || ts[0].Nop?
  {
    assert !ts[0].Nop? ==> Strip(ts)[0] == ts[0];
    assert (NodeTokens(root) + [End])[0] == NodeTokens(root)[0];
  }

  // ----- finding a node by name

  /** The index of the first view that matches, the number of views when none does. */
  function FirstMatch(vs: seq<View>, key: seq<Byte>): (k: nat)
    ensures k <= |vs|
  {
    if vs == [] || Matches(key, vs[0].name) then 0 else 1 + FirstMatch(vs[1..], key)
  }

  lemma {:induction false} FirstMatchMeaning(vs: seq<View>, key: seq<Byte>)
    ensures var k := FirstMatch(vs, key);
            && (k < |vs| ==> Matches(key, vs[k].name))
            && forall j :: 0 <= j < k ==> !Matches(key, vs[j].name)
  {
    if vs != [] && !Matches(key, vs[0].name) {
      FirstMatchMeaning(vs[1..], key);
      var k := FirstMatch(vs[1..], key);
      forall j | 0 <= j < k + 1 ensures !Matches(key, vs[j].name) {
        assert j > 0 ==> vs[j] == vs[1..][j - 1];
      }
    }
  }

  lemma FirstMatchStep(ts: seq<Token>, key: seq<Byte>)
    requires ts != []
    ensures FirstMatch(Views(ts), key) ==
            if !ts[0].BeginNode? then FirstMatch(Views(ts[1..]), key)
            else if Matches(key, ts[0].name) then 0
            else 1 + FirstMatch(Views(ts[1..]), key)
  {
    if ts[0].BeginNode? {
      assert Views(ts)[0].name == ts[0].name && Views(ts)[1..] == Views(ts[1..]);
    }
  }

  lemma {:induction false} FindNodeIsMatch(a: nat, ts: seq<Token>, key: seq<Byte>)
    requires AllEncodable(ts)
    ensures var k := FirstMatch(Views(ts), key);
            FindNode(a, ts, key) == if k < |Views(ts)| then NodeAddr(a, ts, k) else 0
    decreases |ts|
  {
    ViewsCount(ts);
    if ts != [] {
      var k := FirstMatch(Views(ts), key);
      FirstMatchStep(ts, key);
      FindNodeIsMatch(a + Size(ts[0]), ts[1..], key);
      if k < |Views(ts)| && !(ts[0].BeginNode? && k == 0) {
        NodeAddrStep(a, ts, k);
      }
    }
  }

  /** `fdt_get_node` finds the first node of the tree in pre-order whose name matches, and NULL
      exactly when there is none. */
  lemma FindNodeIsFirst(m: seq<Byte>, a: nat, root: Node, ts: seq<Token>, key: seq<Byte>)
    requires Flattens(root, ts) && Whole(m, a, ts) && AllEncodable(ts)
    ensures Views(ts) == Preorder(root)
    ensures FindNode(a, ts, key) == 0 <==> forall k :: 0 <= k < |Preorder(root)| ==> !Matches(key, Preorder(root)[k].name)
    ensures FindNode(a, ts, key) != 0 ==>
              exists k :: && 0 <= k < |Preorder(root)| && Matches(key, Preorder(root)[k].name)
                          && (forall j :: 0 <= j < k ==> !Matches(key, Preorder(root)[j].name))
                          && FindNode(a, ts, key) == NodeAddr(a, ts, k)
  {
    FlattenedViews(root, ts);
    FindNodeIsMatch(a, ts, key);
    FirstMatchMeaning(Preorder(root), key);
    StreamHead(m, a, ts);
    var k := FirstMatch(Preorder(root), key);
    if k < |Preorder(root)| {
      NodeInMemory(m, a, ts, k);
    }
  }

  /** The name "/" finds the root, whose name is empty. */
  lemma SlashFindsRoot(m: seq<Byte>, a: nat, root: Node, ts: seq<Token>)
    requires Flattens(root, ts) && Whole(m, a, ts) && AllEncodable(ts)
    requires root.name == [] && !ts[0].Nop?
    ensures FindNode(a, ts, [47]) == a
  {
    assert Strip(ts)[0] == ts[0] == NodeTokens(root)[0];
  }

  // ----- properties

  /** The address of the j-th property of the node whose tokens come next. */
  ghost function PropAddr(a: nat, ts: seq<Token>, j: nat): nat
    requires AllEncodable(ts) && j < |OwnProps(ts)|
    decreases |ts|
  {
    if ts[0].Prop? then (if j == 0 then a else PropAddr(a + Size(ts[0]), ts[1..], j - 1))
    else PropAddr(a + Size(ts[0]), ts[1..], j)
  }

  ghost predicate NameMatches(p: Property, names: map<Word, seq<Byte>>, key: seq<Byte>) {
    p.nameOff in names && key <= names[p.nameOff]
  }

  /** The index of the first property that matches, their number when none does. */
  ghost function FirstNamed(ps: seq<Property>, names: map<Word, seq<Byte>>, key: seq<Byte>): (j: nat)
    ensures j <= |ps|
  {
    if ps == [] || NameMatches(ps[0], names, key) then 0 else 1 + FirstNamed(ps[1..], names, key)
  }

  lemma {:induction false} FirstNamedMeaning(ps: seq<Property>, names: map<Word, seq<Byte>>, key: seq<Byte>)
    ensures var j := FirstNamed(ps, names, key);
            && (j < |ps| ==> NameMatches(ps[j], names, key))
            && forall i :: 0 <= i < j ==> !NameMatches(ps[i], names, key)
  {
    if ps != [] && !NameMatches(ps[0], names, key) {
      FirstNamedMeaning(ps[1..], names, key);
      var j := FirstNamed(ps[1..], names, key);
      forall i | 0 <= i < j + 1 ensures !NameMatches(ps[i], names, key) {
        assert i > 0 ==> ps[i] == ps[1..][i - 1];
      }
    }
  }

  lemma {:induction false} FindPropIsMatch(a: nat, ts: seq<Token>, names: map<Word, seq<Byte>>, key: seq<Byte>)
    requires AllEncodable(ts) && (forall t :: t in ts ==> PropNamed(t, names))
    ensures var j := FirstNamed(OwnProps(ts), names, key);
            FindProp(a, ts, names, key) == if j < |OwnProps(ts)| then PropAddr(a, ts, j) else 0
    decreases |ts|
  {
    if ts != [] {
      assert PropNamed(ts[0], names);
      FindPropIsMatch(a + Size(ts[0]), ts[1..], names, key);
      if ts[0].Prop? {
        assert OwnProps(ts)[1..] == OwnProps(ts[1..]);
      }
    }
  }

  /** `found` is the address of the first of the properties ahead that matches, or 0. */
  ghost predicate IsFirstMatch(found: nat, a: nat, ts: seq<Token>, names: map<Word, seq<Byte>>, key: seq<Byte>)
    requires AllEncodable(ts)
  {
    var ps := OwnProps(ts);
    if found == 0 then forall j :: 0 <= j < |ps| ==> !NameMatches(ps[j], names, key)
    else exists j :: && 0 <= j < |ps| && NameMatches(ps[j], names, key)
                     && (forall i :: 0 <= i < j ==> !NameMatches(ps[i], names, key))
                     && found == PropAddr(a, ts, j)
  }

  lemma FindPropMeaning(a: nat, ts: seq<Token>, names: map<Word, seq<Byte>>, key: seq<Byte>)
    requires AllEncodable(ts) && 0 < a && (forall t :: t in ts ==> PropNamed(t, names))
    ensures IsFirstMatch(FindProp(a, ts, names, key), a, ts, names, key)
  {
    FindPropIsMatch(a, ts, names, key);
    FirstNamedMeaning(OwnProps(ts), names, key);
    var j := FirstNamed(OwnProps(ts), names, key);
    if j < |OwnProps(ts)| {
      PropAddrGrows(a, ts, j);
    }
  }

  /** `fdt_get_property` on the k-th node of a tree finds the first of that node's own properties,
      never a child's or a sibling's, whose name starts with the key; NULL exactly when there is
      none. */
  lemma FindPropIsFirst(m: seq<Byte>, a: nat, root: Node, ts: seq<Token>, k: nat, names: map<Word, seq<Byte>>, key: seq<Byte>)
    requires Flattens(root, ts) && Whole(m, a, ts) && AllEncodable(ts) && k < |Views(ts)|
    requires forall t :: t in NodeStream(ts, k) ==> PropNamed(t, names)
    ensures Views(ts) == Preorder(root)
    ensures var us := NodeStream(ts, k);
            && AllEncodable(us) && OwnProps(us[1..]) == Preorder(root)[k].props
            && var b := NodeAddr(a, ts, k) + Size(us[0]);
            IsFirstMatch(FindProp(b, us[1..], names, key), b, us[1..], names, key)
  {
    hide Flattens, Views, Preorder, OwnProps, FindProp, IsFirstMatch, Whole, NodeStream, NodeAddr, Size;
    FlattenedViews(root, ts);
    NodeStreamView(ts, k);
    var us := NodeStream(ts, k);
    FindPropMeaning(NodeAddr(a, ts, k) + Size(us[0]), us[1..], names, key);
  }

  lemma {:induction false} PropAddrGrows(a: nat, ts: seq<Token>, j: nat)
    requires AllEncodable(ts) && j < |OwnProps(ts)|
    ensures a <= PropAddr(a, ts, j)
    decreases |ts|
  {
    if !(ts[0].Prop? && j == 0) {
      PropAddrGrows(a + Size(ts[0]), ts[1..], if ts[0].Prop? then j - 1 else j);
    }
  }

  /** The stream from the j-th own property on. */
  ghost function PropStream(ts: seq<Token>, j: nat): (us: seq<Token>)
    requires j < |OwnProps(ts)|
    ensures us != [] && us[0].Prop?
    decreases |ts|
  {
    if ts[0].Prop? then (if j == 0 then ts else PropStream(ts[1..], j - 1))
    else PropStream(ts[1..], j)
  }

  lemma {:induction false} FirstPropIsZero(a: nat, ts: seq<Token>)
    requires AllEncodable(ts)
    ensures FirstProp(a, ts) == if |OwnProps(ts)| > 0 then PropAddr(a, ts, 0) else 0
    decreases |ts|
  {
    if ts != [] && ts[0].Nop? {
      FirstPropIsZero(a + Size(ts[0]), ts[1..]);
    }
  }

  lemma {:induction false} PropStreamHead(ts: seq<Token>, j: nat)
    requires AllEncodable(ts) && j < |OwnProps(ts)|
    ensures AllEncodable(PropStream(ts, j)) && PropStream(ts, j)[0].p == OwnProps(ts)[j]
    decreases |ts|
  {
    if !(ts[0].Prop? && j == 0) {
      PropStreamHead(ts[1..], if ts[0].Prop? then j - 1 else j);
    }
  }

  lemma OwnPropsRest(ts: seq<Token>)
    requires |OwnProps(ts)| > 0
    ensures ts != [] && (ts[0].Prop? || ts[0].Nop?)
    ensures OwnProps(ts) == (if ts[0].Prop? then [ts[0].p] else []) + OwnProps(ts[1..])
  {
  }

  lemma PropStep(a: nat, ts: seq<Token>, j: nat)
    requires AllEncodable(ts) && j < |OwnProps(ts)| && !(ts[0].Prop? && j == 0)
    ensures ts != []
    ensures var i := if ts[0].Prop? then j - 1 else j;
            && i < |OwnProps(ts[1..])|
            && PropStream(ts, j) == PropStream(ts[1..], i)
            && PropAddr(a, ts, j) == PropAddr(a + Size(ts[0]), ts[1..], i)
  {
    OwnPropsRest(ts);
  }

  /** What `fdt_get_next_property` answers from the token at `a`. */
  ghost function After(a: nat, us: seq<Token>): nat
    requires AllEncodable(us) && us != []
  {
    FirstProp(a + Size(us[0]), us[1..])
  }

  lemma AfterFirst(a: nat, ts: seq<Token>)
    requires AllEncodable(ts) && |OwnProps(ts)| > 0 && ts != [] && ts[0].Prop?
    ensures After(a, ts) == if 1 < |OwnProps(ts)| then PropAddr(a, ts, 1) else 0
  {
    OwnPropsRest(ts);
    FirstPropIsZero(a + Size(ts[0]), ts[1..]);
    if 1 < |OwnProps(ts)| {
      PropStep(a, ts, 1);
    }
  }

  /** The address of the property after the j-th, 0 when there is none. */
  ghost function Successor(a: nat, ts: seq<Token>, j: nat): nat
    requires AllEncodable(ts)
  {
    if j < |OwnProps(ts)| then PropAddr(a, ts, j) else 0
  }

  lemma SuccessorStep(a: nat, ts: seq<Token>, j: nat)
    requires AllEncodable(ts) && j < |OwnProps(ts)| && !(ts[0].Prop? && j == 0)
    ensures ts != []
    ensures Successor(a, ts, j + 1) == Successor(a + Size(ts[0]), ts[1..], if ts[0].Prop? then j else j + 1)
  {
    OwnPropsRest(ts);
    if j + 1 < |OwnProps(ts)| {
      PropStep(a, ts, j + 1);
    }
  }

  lemma {:induction false} AfterIsSuccessor(a: nat, ts: seq<Token>, j: nat)
    requires AllEncodable(ts) && j < |OwnProps(ts)| && AllEncodable(PropStream(ts, j))
    ensures After(PropAddr(a, ts, j), PropStream(ts, j)) == Successor(a, ts, j + 1)
    decreases |ts|
  {
    if ts[0].Prop? && j == 0 {
      AfterFirst(a, ts);
    } else {
      var i := if ts[0].Prop? then j - 1 else j;
      SuccessorStep(a, ts, j);
      PropStep(a, ts, j);
      AfterIsSuccessor(a + Size(ts[0]), ts[1..], i);
    }
  }

  /** `fdt_get_next_property` goes from the j-th own property to the (j+1)-th, and answers NULL
      after the last one: it never strays into a child or a sibling. */
  lemma NextPropIsSuccessor(a: nat, ts: seq<Token>, j: nat)
    requires AllEncodable(ts) && j < |OwnProps(ts)|
    ensures AllEncodable(PropStream(ts, j)) && PropStream(ts, j)[0].p == OwnProps(ts)[j]
    ensures After(PropAddr(a, ts, j), PropStream(ts, j)) == Successor(a, ts, j + 1)
  {
    PropStreamHead(ts, j);
    AfterIsSuccessor(a, ts, j);
  }
}
