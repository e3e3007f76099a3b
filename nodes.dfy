/** Content nodes: the sibling units of the typing container and of the hidden
    container that holds the target content. The DOM is abstracted to an identity,
    a "shell" (node type, tag and attributes: everything but the text) and a text
    (innerHTML of an element, textContent of a text run). */
module Nodes {

  type NodeId = nat

  datatype Node = Node(id: NodeId, shell: nat, text: string)

  /** `isEqualNode`: same shell and same content; identity is not compared. */
  predicate IsEqualNode(a: Node, b: Node)
  {
    a.shell == b.shell && a.text == b.text
  }

  /** `isLooselyEqualNodes`: a shallow clone of `first` given the text of `second`
      is equal to `second`. */
  predicate IsLooselyEqualNodes(first: Node, second: Node)
  {
    IsEqualNode(first.(text := second.text), second)
  }

  /** Loose equality is exactly equality of shells; equal nodes are loosely equal. */
  lemma LooselyEqualIsSameShell(first: Node, second: Node)
    ensures IsLooselyEqualNodes(first, second) <==> first.shell == second.shell
    ensures IsEqualNode(first, second) ==> IsLooselyEqualNodes(first, second)
  {
  }

  predicate DistinctIds(ns: seq<Node>)
  {
    forall j, k :: 0 <= j < k < |ns| ==> ns[j].id != ns[k].id
  }

  predicate HasId(ns: seq<Node>, id: NodeId)
  {
    exists k :: 0 <= k < |ns| && ns[k].id == id
  }
}
