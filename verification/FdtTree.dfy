/** Device trees and their flattened form: Devicetree Specification, sections 5.4.1 (structure
    block tokens) and 5.4.2 (their order).
 */
module FdtTree {
  import opened Bits

  /** A property: its name as an offset into the strings block, and its value. */
  datatype Property = Property(nameOff: Word, data: seq<Byte>)

  datatype Node = Node(name: seq<Byte>, props: seq<Property>, children: seq<Node>)

  datatype Token = BeginNode(name: seq<Byte>) | EndNode | Prop(p: Property) | Nop | End

  // ----- tokens of a tree

  function PropTokens(props: seq<Property>): (ts: seq<Token>)
    ensures |ts| == |props|
  {
    if props == [] then [] else [Prop(props[0])] + PropTokens(props[1..])
  }

  /** A node's tokens: its name, its properties, its children, its end. */
  function NodeTokens(n: Node): (ts: seq<Token>)
    ensures ts != [] && ts[0] == BeginNode(n.name)
    decreases n, 1
  {
    [BeginNode(n.name)] + PropTokens(n.props) + ListTokens(n.children) + [EndNode]
  }

  function ListTokens(ns: seq<Node>): seq<Token>
    decreases ns, 0
  {
    if ns == [] then [] else NodeTokens(ns[0]) + ListTokens(ns[1..])
  }

  /** NOP tokens may stand anywhere and mean nothing. */
  function Strip(ts: seq<Token>): seq<Token> {
    if ts == [] then []
    else if ts[0].Nop? then Strip(ts[1..])
    else [ts[0]] + Strip(ts[1..])
  }

  /** `ts` is a structure block for the tree `root`. */
  ghost predicate Flattens(root: Node, ts: seq<Token>) {
    ts != [] && ts[|ts| - 1].End? && Strip(ts) == NodeTokens(root) + [End]
  }

  /** The end token occurs once, as the last one. */
  predicate EndsOnce(ts: seq<Token>) {
    ts != [] && forall i :: 0 <= i < |ts| ==> (ts[i].End? <==> i == |ts| - 1)
  }

  // ----- what a reader of the token stream sees

  /** A node as the walker can know it: its name and its own properties. */
  datatype View = View(name: seq<Byte>, props: seq<Property>)

  /** The properties up to the next node boundary. */
  function OwnProps(ts: seq<Token>): seq<Property> {
    if ts == [] then []
    else match ts[0]
      case Prop(p) => [p] + OwnProps(ts[1..])
      case Nop => OwnProps(ts[1..])
      case _ => []
  }

  function Views(ts: seq<Token>): seq<View> {
    if ts == [] then []
    else if ts[0].BeginNode? then [View(ts[0].name, OwnProps(ts[1..]))] + Views(ts[1..])
    else Views(ts[1..])
  }

  /** The nodes of a tree in pre-order. */
  function Preorder(n: Node): seq<View>
    decreases n, 1
  {
    [View(n.name, n.props)] + PreorderList(n.children)
  }

  function PreorderList(ns: seq<Node>): seq<View>
    decreases ns, 0
  {
    if ns == [] then [] else Preorder(ns[0]) + PreorderList(ns[1..])
  }

  lemma {:induction false} OwnPropsStrip(ts: seq<Token>)
    ensures OwnProps(Strip(ts)) == OwnProps(ts)
  {
    if ts != [] {
      OwnPropsStrip(ts[1..]);
      assert !ts[0].Nop? ==> Strip(ts)[1..] == Strip(ts[1..]);
    }
  }

  lemma {:induction false} ViewsStrip(ts: seq<Token>)
    ensures Views(Strip(ts)) == Views(ts)
  {
    if ts != [] {
      OwnPropsStrip(ts[1..]);
      ViewsStrip(ts[1..]);
      assert !ts[0].Nop? ==> Strip(ts)[1..] == Strip(ts[1..]);
    }
  }

  predicate Boundary(ts: seq<Token>) {
    ts == [] || ts[0].BeginNode? || ts[0].EndNode? || ts[0].End?
  }

  lemma ReadProp(p: Property, ts: seq<Token>)
    ensures OwnProps([Prop(p)] + ts) == [p] + OwnProps(ts)
    ensures Views([Prop(p)] + ts) == Views(ts)
  {
    assert ([Prop(p)] + ts)[1..] == ts;
  }

  lemma {:induction false} PropTokensRead(props: seq<Property>, rest: seq<Token>)
    requires Boundary(rest)
    ensures OwnProps(PropTokens(props) + rest) == props
    ensures Views(PropTokens(props) + rest) == Views(rest)
  {
    if props == [] {
      assert PropTokens(props) + rest == rest;
    } else {
      var more := PropTokens(props[1..]) + rest;
      PropTokensRead(props[1..], rest);
      ReadProp(props[0], more);
      assert PropTokens(props) + rest == [Prop(props[0])] + more;
    }
  }

  lemma NodeTokensBoundary(ns: seq<Node>, rest: seq<Token>)
    requires Boundary(rest)
    ensures Boundary(ListTokens(ns) + rest)
  {
    if ns == [] {
      assert ListTokens(ns) + rest == rest;
    } else {
      assert (ListTokens(ns) + rest)[0] == NodeTokens(ns[0])[0];
    }
  }

  /** Reading a flattened node gives its nodes in pre-order, each with its own properties. */
  lemma {:induction false} NodeTokensRead(n: Node, rest: seq<Token>)
    ensures Views(NodeTokens(n) + rest) == Preorder(n) + Views(rest)
    decreases n, 1
  {
    var tail := [EndNode] + rest;
    var body := ListTokens(n.children) + tail;
    var all := NodeTokens(n) + rest;
    assert all[1..] == PropTokens(n.props) + body;
    NodeTokensBoundary(n.children, tail);
    PropTokensRead(n.props, body);
    ListTokensRead(n.children, tail);
    assert tail[1..] == rest;
  }

  lemma {:induction false} ListTokensRead(ns: seq<Node>, rest: seq<Token>)
    ensures Views(ListTokens(ns) + rest) == PreorderList(ns) + Views(rest)
    decreases ns, 0
  {
    if ns == [] {
      assert ListTokens(ns) + rest == rest;
    } else {
      var rest' := ListTokens(ns[1..]) + rest;
      assert ListTokens(ns) + rest == NodeTokens(ns[0]) + rest';
      NodeTokensRead(ns[0], rest');
      ListTokensRead(ns[1..], rest);
    }
  }

  /** Whatever NOPs are added, the stream of a tree shows its nodes in pre-order, once each. */
  lemma FlattenedViews(root: Node, ts: seq<Token>)
    requires Flattens(root, ts)
    ensures Views(ts) == Preorder(root)
  {
    ViewsStrip(ts);
    NodeTokensRead(root, [End]);
    assert [End][1..] == [];
  }

  lemma {:induction false} PropTokensNoEnd(props: seq<Property>)
    ensures End !in PropTokens(props)
  {
    if props != [] {
      PropTokensNoEnd(props[1..]);
    }
  }

  lemma {:induction false} NodeTokensNoEnd(n: Node)
    ensures End !in NodeTokens(n)
    decreases n, 1
  {
    PropTokensNoEnd(n.props);
    ListTokensNoEnd(n.children);
  }

  lemma {:induction false} ListTokensNoEnd(ns: seq<Node>)
    ensures End !in ListTokens(ns)
    decreases ns, 0
  {
    if ns != [] {
      NodeTokensNoEnd(ns[0]);
      ListTokensNoEnd(ns[1..]);
    }
  }

  lemma {:induction false} StripEndsOnce(ts: seq<Token>, xs: seq<Token>)
    requires ts != [] && ts[|ts| - 1].End? && Strip(ts) == xs + [End] && End !in xs
    ensures EndsOnce(ts)
    decreases |ts|
  {
    if ts[0].Nop? {
      StripEndsOnce(ts[1..], xs);
      assert forall i :: 0 < i < |ts| ==> ts[i] == ts[1..][i - 1];
    } else if xs == [] {
      assert Strip(ts)[0] == ts[0] == End;
      assert Strip(ts[1..]) == [];
      if |ts| > 1 {
        StripKeepsEnd(ts[1..]);
      }
    } else {
      assert Strip(ts)[0] == ts[0] == xs[0];
      assert Strip(ts[1..]) == Strip(ts)[1..] == (xs + [End])[1..] == xs[1..] + [End];
      assert |ts| > 1;
      StripEndsOnce(ts[1..], xs[1..]);
      assert forall i :: 0 < i < |ts| ==> ts[i] == ts[1..][i - 1];
    }
  }

  lemma {:induction false} StripKeepsEnd(ts: seq<Token>)
    requires ts != [] && ts[|ts| - 1].End?
    ensures Strip(ts) != []
  {
    if |ts| > 1 {
      StripKeepsEnd(ts[1..]);
    }
  }

  lemma FlattenedEndsOnce(root: Node, ts: seq<Token>)
    requires Flattens(root, ts)
    ensures EndsOnce(ts)
  {
    NodeTokensNoEnd(root);
    StripEndsOnce(ts, NodeTokens(root));
  }
}
