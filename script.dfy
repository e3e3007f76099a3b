/** The letter script: one operation per character to type or to backspace,
    built from a node difference by `nodesToLetters` / `nodesToBkspcs` and
    assembled in `run` as the reversed backspace half followed by the typed half. */
module Script {
  import opened Wrappers
  import opened Nodes
  import opened NodesDiff

  /** The `letter` field of an operation: one character, the empty string of an
      empty node, or the sentinel string "bkspc". */
  datatype Letter = Ch(c: char) | Empty | Bkspc

  /** One operation: its letter, the node it acts on and the delay that follows it. */
  datatype Op = Op(letter: Letter, ele: NodeId, nextDelay: nat)

  /** `partialNodeType`: a node and the text to type into it or backspace from it. */
  datatype PartialNode = PartialNode(node: Node, text: string)

  /** The JavaScript string held in a letter field. */
  function LetterString(l: Letter): string
  {
    match l
    case Ch(c) => [c]
    case Empty => ""
    case Bkspc => "bkspc"
  }

  function ProcessLetter(c: char, overrideLetter: Option<Letter>): Letter
  {
    if overrideLetter.None? then Ch(c) else overrideLetter.value
  }

  /** One operation per character of `text`, all on node `id`, with delay 0. */
  function TextLetters(id: NodeId, text: string, overrideLetter: Option<Letter>): seq<Op>
  {
    seq(|text|, k requires 0 <= k < |text| => Op(ProcessLetter(text[k], overrideLetter), id, 0))
  }

  lemma TextLettersSnoc(id: NodeId, text: string, i: nat, overrideLetter: Option<Letter>)
    requires i < |text|
    ensures TextLetters(id, text[..i + 1], overrideLetter)
         == TextLetters(id, text[..i], overrideLetter) + [Op(ProcessLetter(text[i], overrideLetter), id, 0)]
  {
  }

  function PartialLetters(partialNode: Option<PartialNode>, overrideLetter: Option<Letter>): seq<Op>
  {
    if partialNode.None? then []
    else TextLetters(partialNode.value.node.id, partialNode.value.text, overrideLetter)
  }

  /** The operations of one node: a single "" operation when its text is empty
      (whatever the override), one per character otherwise. */
  function NodeLetters(node: Node, overrideLetter: Option<Letter>): seq<Op>
  {
    if |node.text| == 0 then [Op(Empty, node.id, 0)]
    else TextLetters(node.id, node.text, overrideLetter)
  }

  /** max(1, |text|) summed over the nodes. */
  function Width(nodes: seq<Node>): nat
  {
    if nodes == [] then 0
    else Width(nodes[..|nodes| - 1]) + (if |nodes[|nodes| - 1].text| == 0 then 1 else |nodes[|nodes| - 1].text|)
  }

  /** |text| summed over the nodes. */
  function TextLength(nodes: seq<Node>): nat
  {
    if nodes == [] then 0 else TextLength(nodes[..|nodes| - 1]) + |nodes[|nodes| - 1].text|
  }

  /** The operations of the nodes, node after node. */
  function NodesLetters(nodes: seq<Node>, overrideLetter: Option<Letter>): seq<Op>
  {
    if nodes == [] then []
    else NodesLetters(nodes[..|nodes| - 1], overrideLetter) + NodeLetters(nodes[|nodes| - 1], overrideLetter)
  }

  /** Each node contributes max(1, |text|) operations, all with delay 0. */
  lemma {:induction false} NodesLettersSize(nodes: seq<Node>, overrideLetter: Option<Letter>)
    ensures |NodesLetters(nodes, overrideLetter)| == Width(nodes)
    ensures forall k :: 0 <= k < Width(nodes) ==> NodesLetters(nodes, overrideLetter)[k].nextDelay == 0
  {
    if nodes != [] {
      NodesLettersSize(nodes[..|nodes| - 1], overrideLetter);
    }
  }

  /** What `nodesToLetters` returns: the partial node's operations, then the nodes'. */
  function LettersOf(nodes: seq<Node>, partialNode: Option<PartialNode>, overrideLetter: Option<Letter>): seq<Op>
  {
    PartialLetters(partialNode, overrideLetter) + NodesLetters(nodes, overrideLetter)
  }

  /** The inner loop of `nodesToLetters`: push one operation per character. */
  method PushTextLetters(letters: seq<Op>, id: NodeId, text: string, overrideLetter: Option<Letter>)
    returns (r: seq<Op>)
    ensures r == letters + TextLetters(id, text, overrideLetter)
  {
    r := letters;
    for i := 0 to |text|
      invariant r == letters + TextLetters(id, text[..i], overrideLetter)
    {
      TextLettersSnoc(id, text, i, overrideLetter);
      r := r + [Op(ProcessLetter(text[i], overrideLetter), id, 0)];
    }
    assert text[..|text|] == text;
  }

  /** One turn of the outer loop of `nodesToLetters`: a single "" operation for
      an empty node, one per character otherwise. */
  method PushNodeLetters(letters: seq<Op>, node: Node, overrideLetter: Option<Letter>) returns (r: seq<Op>)
    ensures r == letters + NodeLetters(node, overrideLetter)
  {
    if |node.text| == 0 {
      r := letters + [Op(Empty, node.id, 0)];
    } else {
      r := PushTextLetters(letters, node.id, node.text, overrideLetter);
    }
  }

  /** `nodesToLetters`: the partial node's characters, then each node's. */
  method NodesToLetters(nodes: seq<Node>, partialNode: Option<PartialNode>, overrideLetter: Option<Letter>)
    returns (letters: seq<Op>)
    ensures letters == LettersOf(nodes, partialNode, overrideLetter)
  {
    letters := [];
    if partialNode.Some? {
      letters := PushTextLetters(letters, partialNode.value.node.id, partialNode.value.text, overrideLetter);
    }
    ghost var head := letters;
    assert head == PartialLetters(partialNode, overrideLetter);
    for j := 0 to |nodes|
      invariant letters == head + NodesLetters(nodes[..j], overrideLetter)
    {
      ghost var prev := letters;
      letters := PushNodeLetters(letters, nodes[j], overrideLetter);
      NodesLettersStep(head, prev, letters, nodes, j, overrideLetter);
    }
    assert nodes[..|nodes|] == nodes;
  }

  lemma NodesLettersStep(head: seq<Op>, prev: seq<Op>, letters: seq<Op>, nodes: seq<Node>, j: nat,
                         overrideLetter: Option<Letter>)
    requires j < |nodes|
    requires prev == head + NodesLetters(nodes[..j], overrideLetter)
    requires letters == prev + NodeLetters(nodes[j], overrideLetter)
    ensures letters == head + NodesLetters(nodes[..j + 1], overrideLetter)
  {
    NodesLettersSnoc(nodes, j, overrideLetter);
  }

  lemma NodesLettersSnoc(nodes: seq<Node>, j: nat, overrideLetter: Option<Letter>)
    requires j < |nodes|
    ensures NodesLetters(nodes[..j + 1], overrideLetter)
         == NodesLetters(nodes[..j], overrideLetter) + NodeLetters(nodes[j], overrideLetter)
  {
    assert nodes[..j + 1][..j] == nodes[..j];
  }

  /** `nodesToBkspcs`: `nodesToLetters` with every character replaced by "bkspc". */
  method NodesToBkspcs(nodes: seq<Node>, partialNode: Option<PartialNode>) returns (letters: seq<Op>)
    ensures letters == LettersOf(nodes, partialNode, Some(Bkspc))
  {
    letters := NodesToLetters(nodes, partialNode, Some(Bkspc));
  }

  /** The operations of `nodes[k]` sit, contiguous and in text order, right after
      those of the nodes before it. */
  lemma {:induction false} NodeLettersPlaced(nodes: seq<Node>, overrideLetter: Option<Letter>, k: nat)
    requires k < |nodes|
    ensures Width(nodes[..k]) + |NodeLetters(nodes[k], overrideLetter)| <= |NodesLetters(nodes, overrideLetter)|
    ensures NodesLetters(nodes, overrideLetter)[Width(nodes[..k])..Width(nodes[..k]) + |NodeLetters(nodes[k], overrideLetter)|]
         == NodeLetters(nodes[k], overrideLetter)
  {
    var init := nodes[..|nodes| - 1];
    NodesLettersSize(init, overrideLetter);
    NodesLettersSize(nodes, overrideLetter);
    if k == |nodes| - 1 {
      assert nodes[..k] == init;
    } else {
      NodeLettersPlaced(init, overrideLetter, k);
      assert init[..k] == nodes[..k];
      assert init[k] == nodes[k];
    }
  }

  /** Number of "bkspc" operations. */
  function CountBkspc(ops: seq<Op>): nat
  {
    if ops == [] then 0
    else CountBkspc(ops[..|ops| - 1]) + (if ops[|ops| - 1].letter == Bkspc then 1 else 0)
  }

  lemma {:induction false} CountBkspcConcat(a: seq<Op>, b: seq<Op>)
    ensures CountBkspc(a + b) == CountBkspc(a) + CountBkspc(b)
    decreases |b|
  {
    if b != [] {
      assert (a + b)[..|a + b| - 1] == a + b[..|b| - 1];
      CountBkspcConcat(a, b[..|b| - 1]);
    } else {
      assert a + b == a;
    }
  }

  lemma {:induction false} CountBkspcText(id: NodeId, text: string)
    ensures CountBkspc(TextLetters(id, text, Some(Bkspc))) == |text|
  {
    if text != [] {
      var init := text[..|text| - 1];
      assert TextLetters(id, text, Some(Bkspc))[..|text| - 1] == TextLetters(id, init, Some(Bkspc));
      CountBkspcText(id, init);
    }
  }

  lemma {:induction false} CountBkspcNodes(nodes: seq<Node>)
    ensures CountBkspc(NodesLetters(nodes, Some(Bkspc))) == TextLength(nodes)
  {
    if nodes != [] {
      var init, last := nodes[..|nodes| - 1], nodes[|nodes| - 1];
      CountBkspcNodes(init);
      CountBkspcConcat(NodesLetters(init, Some(Bkspc)), NodeLetters(last, Some(Bkspc)));
      if |last.text| == 0 {
        assert CountBkspc([Op(Empty, last.id, 0)]) == CountBkspc([]) + 0;
      } else {
        CountBkspcText(last.id, last.text);
      }
    }
  }

  predicate NoBkspc(s: seq<Op>)
  {
    forall k :: 0 <= k < |s| ==> s[k].letter != Bkspc
  }

  predicate BkspcOrEmpty(s: seq<Op>)
  {
    forall k :: 0 <= k < |s| ==> s[k].letter == Bkspc || s[k].letter == Empty
  }

  /** Every operation types one character. */
  predicate Typed(s: seq<Op>)
  {
    forall k :: 0 <= k < |s| ==> s[k].letter.Ch?
  }

  /** Under the "bkspc" override every operation is a backspace except the one
      "" operation of each empty node; without an override none is a backspace. */
  lemma {:induction false} NodesLettersKinds(nodes: seq<Node>, overrideLetter: Option<Letter>)
    requires overrideLetter == None || overrideLetter == Some(Bkspc)
    ensures overrideLetter == None ==> NoBkspc(NodesLetters(nodes, overrideLetter))
    ensures overrideLetter == Some(Bkspc) ==> BkspcOrEmpty(NodesLetters(nodes, overrideLetter))
  {
    if nodes != [] {
      var init, last := nodes[..|nodes| - 1], nodes[|nodes| - 1];
      NodesLettersKinds(init, overrideLetter);
      var a, b := NodesLetters(init, overrideLetter), NodeLetters(last, overrideLetter);
      assert overrideLetter == None ==> NoBkspc(b);
      assert overrideLetter == Some(Bkspc) ==> BkspcOrEmpty(b);
      assert NodesLetters(nodes, overrideLetter) == a + b;
    }
  }

  /** `nodesToLetters` in numbers: its length is |partial text| + Σ max(1, |text|),
      every delay is 0; under the "bkspc" override it holds |partial text| + Σ |text|
      backspaces and nothing but backspaces and "" operations, and without an
      override no backspace at all. */
  lemma LettersOfShape(nodes: seq<Node>, partialNode: Option<PartialNode>, overrideLetter: Option<Letter>)
    requires overrideLetter == None || overrideLetter == Some(Bkspc)
    ensures var r := LettersOf(nodes, partialNode, overrideLetter);
      var pl := if partialNode.Some? then |partialNode.value.text| else 0;
      |r| == pl + Width(nodes) &&
      (forall k :: 0 <= k < |r| ==> r[k].nextDelay == 0) &&
      (overrideLetter == None ==> NoBkspc(r)) &&
      (overrideLetter == Some(Bkspc) ==> CountBkspc(r) == pl + TextLength(nodes) && BkspcOrEmpty(r))
  {
    NodesLettersKinds(nodes, overrideLetter);
    NodesLettersSize(nodes, overrideLetter);
    var a := PartialLetters(partialNode, overrideLetter);
    assert forall k :: 0 <= k < |a| ==> a[k].nextDelay == 0;
    assert overrideLetter == None ==> NoBkspc(a);
    assert overrideLetter == Some(Bkspc) ==> BkspcOrEmpty(a);
    if overrideLetter == Some(Bkspc) {
      CountBkspcNodes(nodes);
      CountBkspcConcat(a, NodesLetters(nodes, overrideLetter));
      if partialNode.Some? {
        CountBkspcText(partialNode.value.node.id, partialNode.value.text);
      }
    }
  }

  /** `Array.prototype.reverse` on the backspace half. */
  function Reverse<T>(s: seq<T>): (r: seq<T>)
    ensures |r| == |s|
    ensures forall k :: 0 <= k < |s| ==> r[k] == s[|s| - 1 - k]
  {
    if s == [] then [] else [s[|s| - 1]] + Reverse(s[..|s| - 1])
  }

  lemma {:induction false} CountBkspcReverse(s: seq<Op>)
    ensures CountBkspc(Reverse(s)) == CountBkspc(s)
  {
    if s != [] {
      var init := s[..|s| - 1];
      CountBkspcReverse(init);
      CountBkspcConcat([s[|s| - 1]], Reverse(init));
      assert CountBkspc([s[|s| - 1]]) == CountBkspc([]) + (if s[|s| - 1].letter == Bkspc then 1 else 0);
    }
  }

  /** The partial node of the backspace half and of the typed half. */
  function BkspcsPartialNode(d: NodeDifference): Option<PartialNode>
  {
    if d.looselyEqualNodeDiff.Some? then
      Some(PartialNode(d.looselyEqualNodeDiff.value.ele, d.looselyEqualNodeDiff.value.dels))
    else None
  }

  function LettersPartialNode(d: NodeDifference): Option<PartialNode>
  {
    if d.looselyEqualNodeDiff.Some? then
      Some(PartialNode(d.looselyEqualNodeDiff.value.ele, d.looselyEqualNodeDiff.value.adds))
    else None
  }

  function BkspcHalf(d: NodeDifference): seq<Op>
  {
    LettersOf(d.delNodes, BkspcsPartialNode(d), Some(Bkspc))
  }

  function TypedHalf(d: NodeDifference): seq<Op>
  {
    LettersOf(d.addNodes, LettersPartialNode(d), None)
  }

  /** The script `run` assembles before the delay and typo passes. */
  function Assemble(d: NodeDifference): seq<Op>
  {
    Reverse(BkspcHalf(d)) + TypedHalf(d)
  }

  function DelsLength(d: NodeDifference): nat
  {
    if d.looselyEqualNodeDiff.Some? then |d.looselyEqualNodeDiff.value.dels| else 0
  }

  /** Before the passes: every backspace precedes the typed half, which holds none;
      there are |dels| + Σ |text of deleted nodes| backspaces; every delay is 0. */
  lemma AssembleShape(d: NodeDifference)
    ensures var s, h := Assemble(d), |BkspcHalf(d)|;
      h <= |s| &&
      BkspcOrEmpty(s[..h]) && NoBkspc(s[h..]) &&
      (forall k :: 0 <= k < |s| ==> s[k].nextDelay == 0) &&
      CountBkspc(s) == DelsLength(d) + TextLength(d.delNodes)
  {
    AssembleLayout(d);
    AssembleCount(d);
  }

  /** The backspace half reversed, then the typed half, every delay 0. */
  lemma AssembleLayout(d: NodeDifference)
    ensures var s, h := Assemble(d), |BkspcHalf(d)|;
      h <= |s| &&
      BkspcOrEmpty(s[..h]) && NoBkspc(s[h..]) &&
      (forall k :: 0 <= k < |s| ==> s[k].nextDelay == 0)
  {
    LettersOfShape(d.delNodes, BkspcsPartialNode(d), Some(Bkspc));
    LettersOfShape(d.addNodes, LettersPartialNode(d), None);
    var s := Assemble(d);
    assert s[..|BkspcHalf(d)|] == Reverse(BkspcHalf(d));
    assert s[|BkspcHalf(d)|..] == TypedHalf(d);
  }

  lemma AssembleCount(d: NodeDifference)
    ensures CountBkspc(Assemble(d)) == DelsLength(d) + TextLength(d.delNodes)
  {
    LettersOfShape(d.delNodes, BkspcsPartialNode(d), Some(Bkspc));
    LettersOfShape(d.addNodes, LettersPartialNode(d), None);
    CountBkspcReverse(BkspcHalf(d));
    CountBkspcConcat(Reverse(BkspcHalf(d)), TypedHalf(d));
    CountBkspcNone(TypedHalf(d));
  }

  lemma {:induction false} CountBkspcNone(s: seq<Op>)
    requires NoBkspc(s)
    ensures CountBkspc(s) == 0
  {
    if s != [] {
      CountBkspcNone(s[..|s| - 1]);
    }
  }

  /** Identical content yields an empty script. */
  lemma SameContentEmptyScript(nodes: seq<Node>)
    ensures Assemble(GetNodesDifference(nodes, nodes)) == []
  {
    SameContentNoDifference(nodes);
  }
}
