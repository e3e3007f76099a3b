/** `getNodesDifference`: a positional, front-anchored comparison of the new
    content (`cmpWith`, the children of the hidden container) with the typed
    content (`cmpTo`, the children of the visible container). */
module NodesDiff {
  import opened Wrappers
  import opened Nodes
  import opened WordDiff

  /** The one node edited in place: `ele` is the typed node, `dels` the text to
      backspace from its end and `adds` the text to type after that. */
  datatype LooselyEqualNodeDiff = LooselyEqualNodeDiff(ele: Node, dels: string, adds: string)

  datatype NodeDifference = NodeDifference(
    delNodes: seq<Node>,
    addNodes: seq<Node>,
    looselyEqualNodeDiff: Option<LooselyEqualNodeDiff>)

  /** Reference definition: the first position at which the two sequences hold
      unequal nodes, or the length of the shorter one. */
  function FirstUnequal(a: seq<Node>, b: seq<Node>): (n: nat)
    ensures n <= |a| && n <= |b|
    ensures forall k :: 0 <= k < n ==> IsEqualNode(a[k], b[k])
    ensures n < |a| && n < |b| ==> !IsEqualNode(a[n], b[n])
  {
    if |a| == 0 || |b| == 0 || !IsEqualNode(a[0], b[0]) then 0
    else
      var m := FirstUnequal(a[1..], b[1..]);
      assert forall k :: 1 <= k < m + 1 ==> a[k] == a[1..][k - 1] && b[k] == b[1..][k - 1];
      1 + m
  }

  /** What the diff is when the scan stops at position `i`: the new list ran out
      (the rest of the typed list is deleted), the typed list ran out (the rest
      of the new list is added), or the nodes at `i` differ (edited in place when
      they share a shell, replaced from `i` on otherwise). */
  predicate StopsAt(cmpWith: seq<Node>, cmpTo: seq<Node>, i: nat, d: NodeDifference)
    requires i <= |cmpWith| && i <= |cmpTo|
  {
    if i == |cmpWith| then d == NodeDifference(cmpTo[i..], [], None)
    else if i == |cmpTo| then d == NodeDifference([], cmpWith[i..], None)
    else if IsLooselyEqualNodes(cmpWith[i], cmpTo[i]) then
      var wd := GetWordDifference(cmpWith[i].text, cmpTo[i].text);
      d == NodeDifference(cmpTo[i + 1..], cmpWith[i + 1..],
                          Some(LooselyEqualNodeDiff(cmpTo[i], wd.dels, wd.adds)))
    else d == NodeDifference(cmpTo[i..], cmpWith[i..], None)
  }

  /** The index loop of `getNodesDifference` from position `i` on, every earlier
      pair being equal. */
  function ScanFrom(cmpWith: seq<Node>, cmpTo: seq<Node>, i: nat): (r: NodeDifference)
    requires i <= |cmpWith| && i <= |cmpTo|
    requires forall k :: 0 <= k < i ==> IsEqualNode(cmpWith[k], cmpTo[k])
    ensures StopsAt(cmpWith, cmpTo, FirstUnequal(cmpWith, cmpTo), r)
    decreases |cmpWith| - i
  {
    if i == |cmpWith| then NodeDifference(cmpTo[|cmpWith|..], [], None)
    else if i == |cmpTo| then NodeDifference([], cmpWith[i..], None)
    else if IsEqualNode(cmpWith[i], cmpTo[i]) then ScanFrom(cmpWith, cmpTo, i + 1)
    else if IsLooselyEqualNodes(cmpWith[i], cmpTo[i]) then
      var wd := GetWordDifference(cmpWith[i].text, cmpTo[i].text);
      NodeDifference(cmpTo[i + 1..], cmpWith[i + 1..],
                     Some(LooselyEqualNodeDiff(cmpTo[i], wd.dels, wd.adds)))
    else NodeDifference(cmpTo[i..], cmpWith[i..], None)
  }

  /** `getNodesDifference(cmpWith, cmpTo)`: the deleted nodes are a suffix of the
      typed list, the added nodes a suffix of the new list, and the diff is the
      one fixed by the first unequal position. */
  function GetNodesDifference(cmpWith: seq<Node>, cmpTo: seq<Node>): (r: NodeDifference)
    ensures |r.delNodes| <= |cmpTo| && r.delNodes == cmpTo[|cmpTo| - |r.delNodes|..]
    ensures |r.addNodes| <= |cmpWith| && r.addNodes == cmpWith[|cmpWith| - |r.addNodes|..]
    ensures StopsAt(cmpWith, cmpTo, FirstUnequal(cmpWith, cmpTo), r)
  {
    ScanFrom(cmpWith, cmpTo, 0)
  }

  /** The typed list is a strict prefix of the new one: only additions. */
  lemma TypedIsStrictPrefix(cmpWith: seq<Node>, cmpTo: seq<Node>)
    requires |cmpTo| < |cmpWith|
    requires forall k :: 0 <= k < |cmpTo| ==> IsEqualNode(cmpWith[k], cmpTo[k])
    ensures GetNodesDifference(cmpWith, cmpTo) == NodeDifference([], cmpWith[|cmpTo|..], None)
  {
    var n := FirstUnequal(cmpWith, cmpTo);
  }

  /** The new list is a prefix of the typed one (equal lists included): only
      deletions. */
  lemma NewIsPrefix(cmpWith: seq<Node>, cmpTo: seq<Node>)
    requires |cmpWith| <= |cmpTo|
    requires forall k :: 0 <= k < |cmpWith| ==> IsEqualNode(cmpWith[k], cmpTo[k])
    ensures GetNodesDifference(cmpWith, cmpTo) == NodeDifference(cmpTo[|cmpWith|..], [], None)
  {
    var n := FirstUnequal(cmpWith, cmpTo);
  }

  /** The lists differ at `i`, with every earlier pair equal: an in-place edit of
      the typed node at `i` when the shells agree, a replacement from `i` on when
      they do not. */
  lemma Divergence(cmpWith: seq<Node>, cmpTo: seq<Node>, i: nat)
    requires i < |cmpWith| && i < |cmpTo|
    requires forall k :: 0 <= k < i ==> IsEqualNode(cmpWith[k], cmpTo[k])
    requires !IsEqualNode(cmpWith[i], cmpTo[i])
    ensures var d := GetNodesDifference(cmpWith, cmpTo);
      if cmpWith[i].shell == cmpTo[i].shell then
        var wd := GetWordDifference(cmpWith[i].text, cmpTo[i].text);
        d == NodeDifference(cmpTo[i + 1..], cmpWith[i + 1..],
                            Some(LooselyEqualNodeDiff(cmpTo[i], wd.dels, wd.adds)))
      else d == NodeDifference(cmpTo[i..], cmpWith[i..], None)
  {
    var n := FirstUnequal(cmpWith, cmpTo);
    assert n == i;
  }

  /** Identical content gives an empty diff. */
  lemma SameContentNoDifference(nodes: seq<Node>)
    ensures GetNodesDifference(nodes, nodes) == NodeDifference([], [], None)
  {
    NewIsPrefix(nodes, nodes);
  }
}
