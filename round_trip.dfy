/** The round trip of `run`: played on the typed markup, the assembled script
    leaves every position of the new content shown with the new text, on the
    typed node it kept or on the clone it added, and every dropped typed node
    empty. */
module RoundTrip {
  import opened Wrappers
  import opened Nodes
  import opened WordDiff
  import opened NodesDiff
  import opened Script
  import opened Playback
  import opened Delays
  import opened Bursts

  /** The texts of the nodes with identity `x`, one after the other. */
  function TextsAt(nodes: seq<Node>, x: NodeId): string
  {
    if nodes == [] then ""
    else TextsAt(nodes[..|nodes| - 1], x) + (if nodes[|nodes| - 1].id == x then nodes[|nodes| - 1].text else "")
  }

  /** No node has identity `x`: nothing is found. */
  lemma {:induction false} TextsAtForeign(nodes: seq<Node>, x: NodeId)
    requires forall j :: 0 <= j < |nodes| ==> nodes[j].id != x
    ensures TextsAt(nodes, x) == ""
  {
    if nodes != [] {
      TextsAtForeign(nodes[..|nodes| - 1], x);
    }
  }

  /** With distinct identities, the text found for a node's identity is its own. */
  lemma {:induction false} TextsAtDistinct(nodes: seq<Node>, k: nat)
    requires DistinctIds(nodes) && k < |nodes|
    ensures TextsAt(nodes, nodes[k].id) == nodes[k].text
  {
    var init, last := nodes[..|nodes| - 1], nodes[|nodes| - 1];
    if k == |nodes| - 1 {
      TextsAtForeign(init, last.id);
    } else {
      TextsAtDistinct(init, k);
    }
  }

  /** The same for a suffix `nodes[lo..]`: a node before `lo` finds nothing. */
  lemma TextsAtSuffix(nodes: seq<Node>, lo: nat, k: nat)
    requires DistinctIds(nodes) && lo <= |nodes| && k < |nodes|
    ensures TextsAt(nodes[lo..], nodes[k].id) == if lo <= k then nodes[k].text else ""
  {
    var suffix := nodes[lo..];
    assert forall j :: 0 <= j < |suffix| ==> suffix[j] == nodes[lo + j];
    if lo <= k {
      assert DistinctIds(suffix);
      TextsAtDistinct(suffix, k - lo);
    } else {
      TextsAtForeign(suffix, nodes[k].id);
    }
  }

  /** A suffix of nodes none of which has identity `x` finds nothing. */
  lemma TextsAtForeignSuffix(nodes: seq<Node>, lo: nat, x: NodeId)
    requires lo <= |nodes|
    requires forall j :: 0 <= j < |nodes| ==> nodes[j].id != x
    ensures TextsAt(nodes[lo..], x) == ""
  {
    var suffix := nodes[lo..];
    assert forall j :: 0 <= j < |suffix| ==> suffix[j] == nodes[lo + j];
    TextsAtForeign(suffix, x);
  }

  lemma {:induction false} CountBkspcAtConcat(a: seq<Op>, b: seq<Op>, x: NodeId)
    ensures CountBkspcAt(a + b, x) == CountBkspcAt(a, x) + CountBkspcAt(b, x)
    decreases |b|
  {
    if b == [] {
      assert a + b == a;
    } else {
      assert (a + b)[..|a + b| - 1] == a + b[..|b| - 1];
      CountBkspcAtConcat(a, b[..|b| - 1], x);
    }
  }

  lemma {:induction false} SpellAtConcat(a: seq<Op>, b: seq<Op>, x: NodeId)
    ensures SpellAt(a + b, x) == SpellAt(a, x) + SpellAt(b, x)
    decreases |b|
  {
    if b == [] {
      assert a + b == a;
    } else {
      assert (a + b)[..|a + b| - 1] == a + b[..|b| - 1];
      SpellAtConcat(a, b[..|b| - 1], x);
    }
  }

  /** Reversing a script keeps every node's backspace count. */
  lemma {:induction false} CountBkspcAtReverse(s: seq<Op>, x: NodeId)
    ensures CountBkspcAt(Reverse(s), x) == CountBkspcAt(s, x)
  {
    if s != [] {
      var init, last := s[..|s| - 1], s[|s| - 1];
      CountBkspcAtReverse(init, x);
      CountBkspcAtConcat([last], Reverse(init), x);
      assert CountBkspcAt([last], x) == CountBkspcAt([], x) + (if last.letter == Bkspc && last.ele == x then 1 else 0);
    }
  }

  /** One text's operations: under the "bkspc" override, one backspace per
      character on its node; without it, the text spelt on its node. */
  lemma {:induction false} TextLettersAt(id: NodeId, text: string, x: NodeId)
    ensures CountBkspcAt(TextLetters(id, text, Some(Bkspc)), x) == if id == x then |text| else 0
    ensures SpellAt(TextLetters(id, text, None), x) == if id == x then text else ""
  {
    if text != [] {
      var init := text[..|text| - 1];
      assert TextLetters(id, text, Some(Bkspc))[..|text| - 1] == TextLetters(id, init, Some(Bkspc));
      assert TextLetters(id, text, None)[..|text| - 1] == TextLetters(id, init, None);
      TextLettersAt(id, init, x);
      assert init + [text[|text| - 1]] == text;
    }
  }

  /** The nodes' operations: as many backspaces on `x` as its texts hold
      characters, or exactly its texts spelt on it. */
  lemma {:induction false} NodesLettersAt(nodes: seq<Node>, x: NodeId)
    ensures CountBkspcAt(NodesLetters(nodes, Some(Bkspc)), x) == |TextsAt(nodes, x)|
    ensures SpellAt(NodesLetters(nodes, None), x) == TextsAt(nodes, x)
  {
    if nodes != [] {
      var init, last := nodes[..|nodes| - 1], nodes[|nodes| - 1];
      NodesLettersAt(init, x);
      CountBkspcAtConcat(NodesLetters(init, Some(Bkspc)), NodeLetters(last, Some(Bkspc)), x);
      SpellAtConcat(NodesLetters(init, None), NodeLetters(last, None), x);
      if |last.text| == 0 {
        var e := [Op(Empty, last.id, 0)];
        assert CountBkspcAt(e, x) == CountBkspcAt([], x) + 0;
        assert SpellAt(e, x) == SpellAt([], x) + (if last.id == x then "" else "");
      } else {
        TextLettersAt(last.id, last.text, x);
      }
    }
  }

  /** The characters the backspace half removes from node `x`'s end and the text
      the typed half appends to it. */
  function RemovedAt(d: NodeDifference, x: NodeId): nat
  {
    (if d.looselyEqualNodeDiff.Some? && d.looselyEqualNodeDiff.value.ele.id == x
     then |d.looselyEqualNodeDiff.value.dels| else 0) + |TextsAt(d.delNodes, x)|
  }

  function AppendedAt(d: NodeDifference, x: NodeId): string
  {
    (if d.looselyEqualNodeDiff.Some? && d.looselyEqualNodeDiff.value.ele.id == x
     then d.looselyEqualNodeDiff.value.adds else "") + TextsAt(d.addNodes, x)
  }

  /** The assembled script on one node: its text loses `RemovedAt` characters,
      then gains `AppendedAt`, whatever the order of the operations. */
  lemma AssembleAt(s: Surface, d: NodeDifference, x: NodeId)
    ensures TextOf(Play(s, Assemble(d)), x) == Dropped(TextOf(s, x), RemovedAt(d, x)) + AppendedAt(d, x)
  {
    var bk, ty := BkspcHalf(d), TypedHalf(d);
    var rb := Reverse(bk);
    assert BkspcOrEmpty(rb) && NoBkspc(ty) by {
      AssembleShape(d);
      var a := Assemble(d);
      assert a[..|bk|] == rb && a[|bk|..] == ty;
    }
    var m := Play(s, rb);
    PlayConcat(s, rb, ty);
    PlayRemovals(s, rb, x);
    PlayTyping(m, ty, x);
    assert CountBkspcAt(rb, x) == RemovedAt(d, x) by {
      CountBkspcAtReverse(bk, x);
      CountBkspcAtConcat(PartialLetters(BkspcsPartialNode(d), Some(Bkspc)), NodesLetters(d.delNodes, Some(Bkspc)), x);
      NodesLettersAt(d.delNodes, x);
      if d.looselyEqualNodeDiff.Some? {
        TextLettersAt(d.looselyEqualNodeDiff.value.ele.id, d.looselyEqualNodeDiff.value.dels, x);
      }
    }
    assert SpellAt(ty, x) == AppendedAt(d, x) by {
      SpellAtConcat(PartialLetters(LettersPartialNode(d), None), NodesLetters(d.addNodes, None), x);
      NodesLettersAt(d.addNodes, x);
      if d.looselyEqualNodeDiff.Some? {
        TextLettersAt(d.looselyEqualNodeDiff.value.ele.id, d.looselyEqualNodeDiff.value.adds, x);
      }
    }
  }

  /** The clones are new nodes: identities distinct among themselves, among the
      typed nodes and between the two lists. */
  predicate Fresh(cmpWith: seq<Node>, cmpTo: seq<Node>)
  {
    DistinctIds(cmpWith) && DistinctIds(cmpTo) &&
    forall j, k :: 0 <= j < |cmpWith| && 0 <= k < |cmpTo| ==> cmpWith[j].id != cmpTo[k].id
  }

  /** Before playing: the typed nodes show their texts, the clones nothing. */
  ghost predicate Showing(s: Surface, cmpWith: seq<Node>, cmpTo: seq<Node>)
  {
    (forall k :: 0 <= k < |cmpTo| ==> TextOf(s, cmpTo[k].id) == cmpTo[k].text) &&
    (forall k :: 0 <= k < |cmpWith| ==> TextOf(s, cmpWith[k].id) == "")
  }

  /** The typed node at `k` stays in use: it is before the first difference, or
      it is the node edited in place there. */
  predicate Kept(cmpWith: seq<Node>, cmpTo: seq<Node>, k: nat)
  {
    var p := FirstUnequal(cmpWith, cmpTo);
    k < p || (k == p && p < |cmpWith| && p < |cmpTo| && IsLooselyEqualNodes(cmpWith[p], cmpTo[p]))
  }

  /** The node that shows position `k` of the new content after the script: the
      typed node there when it is kept, the clone otherwise. */
  function Shown(cmpWith: seq<Node>, cmpTo: seq<Node>, k: nat): NodeId
    requires k < |cmpWith|
  {
    if k < |cmpTo| && Kept(cmpWith, cmpTo, k) then cmpTo[k].id else cmpWith[k].id
  }

  /** Removing nothing keeps a text; removing all of it or more leaves "". */
  lemma DroppedBounds(t: string, n: nat)
    ensures n == 0 ==> Dropped(t, n) == t
    ensures n >= |t| ==> Dropped(t, n) == ""
  {
  }

  /** Removing the remainder after a prefix leaves the prefix. */
  lemma DroppedSuffix(p: string, rest: string)
    ensures Dropped(p + rest, |rest|) == p
  {
    if |rest| < |p + rest| {
      assert (p + rest)[..|p + rest| - |rest|] == p;
    }
  }

  /** The fields of the difference, by where the scan stopped. */
  lemma DifferenceFields(cmpWith: seq<Node>, cmpTo: seq<Node>)
    ensures var d, p := GetNodesDifference(cmpWith, cmpTo), FirstUnequal(cmpWith, cmpTo);
      && (p == |cmpWith| ==> d.delNodes == cmpTo[p..] && d.addNodes == [] && d.looselyEqualNodeDiff.None?)
      && (p < |cmpWith| && p == |cmpTo| ==> d.delNodes == [] && d.addNodes == cmpWith[p..] && d.looselyEqualNodeDiff.None?)
      && (p < |cmpWith| && p < |cmpTo| && IsLooselyEqualNodes(cmpWith[p], cmpTo[p]) ==>
           d.delNodes == cmpTo[p + 1..] && d.addNodes == cmpWith[p + 1..] && d.looselyEqualNodeDiff.Some? &&
           d.looselyEqualNodeDiff.value.ele == cmpTo[p] &&
           d.looselyEqualNodeDiff.value.dels == GetWordDifference(cmpWith[p].text, cmpTo[p].text).dels &&
           d.looselyEqualNodeDiff.value.adds == GetWordDifference(cmpWith[p].text, cmpTo[p].text).adds)
      && (p < |cmpWith| && p < |cmpTo| && !IsLooselyEqualNodes(cmpWith[p], cmpTo[p]) ==>
           d.delNodes == cmpTo[p..] && d.addNodes == cmpWith[p..] && d.looselyEqualNodeDiff.None?)
  {
  }

  /** A typed node before the first difference is not touched. */
  lemma TypedValuePrefix(cmpWith: seq<Node>, cmpTo: seq<Node>, k: nat)
    requires Fresh(cmpWith, cmpTo) && k < FirstUnequal(cmpWith, cmpTo)
    ensures var d, x := GetNodesDifference(cmpWith, cmpTo), cmpTo[k].id;
      RemovedAt(d, x) == 0 && AppendedAt(d, x) == ""
  {
    var d, p, x := GetNodesDifference(cmpWith, cmpTo), FirstUnequal(cmpWith, cmpTo), cmpTo[k].id;
    DifferenceFields(cmpWith, cmpTo);
    var la, ld := |cmpWith| - |d.addNodes|, |cmpTo| - |d.delNodes|;
    TextsAtForeignSuffix(cmpWith, la, x);
    assert d.addNodes == cmpWith[la..];
    assert TextsAt(d.addNodes, x) == "";
    assert d.looselyEqualNodeDiff.Some? ==> p < |cmpTo| && d.looselyEqualNodeDiff.value.ele == cmpTo[p];
    assert d.looselyEqualNodeDiff.Some? ==> d.looselyEqualNodeDiff.value.ele.id != x;
    assert d.delNodes == cmpTo[ld..] && ld >= p;
    TextsAtSuffix(cmpTo, ld, k);
  }

  /** The node edited in place loses its `dels` and gains its `adds`. */
  lemma TypedValuePartial(cmpWith: seq<Node>, cmpTo: seq<Node>)
    requires Fresh(cmpWith, cmpTo)
    requires var p := FirstUnequal(cmpWith, cmpTo);
      p < |cmpWith| && p < |cmpTo| && IsLooselyEqualNodes(cmpWith[p], cmpTo[p])
    ensures var d, p := GetNodesDifference(cmpWith, cmpTo), FirstUnequal(cmpWith, cmpTo);
      var wd := GetWordDifference(cmpWith[p].text, cmpTo[p].text);
      RemovedAt(d, cmpTo[p].id) == |wd.dels| && AppendedAt(d, cmpTo[p].id) == wd.adds
  {
    PartialFields(cmpWith, cmpTo);
    PartialOnly(cmpWith, cmpTo);
  }

  /** The difference when the node at the first difference is edited in place. */
  lemma PartialFields(cmpWith: seq<Node>, cmpTo: seq<Node>)
    requires var p := FirstUnequal(cmpWith, cmpTo);
      p < |cmpWith| && p < |cmpTo| && IsLooselyEqualNodes(cmpWith[p], cmpTo[p])
    ensures var d, p := GetNodesDifference(cmpWith, cmpTo), FirstUnequal(cmpWith, cmpTo);
      var wd := GetWordDifference(cmpWith[p].text, cmpTo[p].text);
      d == NodeDifference(cmpTo[p + 1..], cmpWith[p + 1..], Some(LooselyEqualNodeDiff(cmpTo[p], wd.dels, wd.adds)))
  {
    DifferenceFields(cmpWith, cmpTo);
  }

  /** No node after the edited one, removed or added, is the edited node. */
  lemma PartialOnly(cmpWith: seq<Node>, cmpTo: seq<Node>)
    requires Fresh(cmpWith, cmpTo)
    requires var p := FirstUnequal(cmpWith, cmpTo); p < |cmpWith| && p < |cmpTo|
    ensures var p := FirstUnequal(cmpWith, cmpTo);
      TextsAt(cmpTo[p + 1..], cmpTo[p].id) == "" && TextsAt(cmpWith[p + 1..], cmpTo[p].id) == ""
  {
    var p := FirstUnequal(cmpWith, cmpTo);
    TextsAtForeignSuffix(cmpWith, p + 1, cmpTo[p].id);
    TextsAtSuffix(cmpTo, p + 1, p);
  }

  /** A typed node from the first difference on, other than the node edited in
      place, loses its whole text and gains nothing. */
  lemma TypedValueDropped(cmpWith: seq<Node>, cmpTo: seq<Node>, k: nat)
    requires Fresh(cmpWith, cmpTo) && k < |cmpTo| && !Kept(cmpWith, cmpTo, k)
    ensures var d, x := GetNodesDifference(cmpWith, cmpTo), cmpTo[k].id;
      RemovedAt(d, x) >= |cmpTo[k].text| && AppendedAt(d, x) == ""
  {
    DroppedGainsNothing(cmpWith, cmpTo, k);
    DroppedLosesAll(cmpWith, cmpTo, k);
  }

  /** The edited node and the added nodes are other nodes. */
  lemma DroppedGainsNothing(cmpWith: seq<Node>, cmpTo: seq<Node>, k: nat)
    requires Fresh(cmpWith, cmpTo) && k < |cmpTo| && !Kept(cmpWith, cmpTo, k)
    ensures AppendedAt(GetNodesDifference(cmpWith, cmpTo), cmpTo[k].id) == ""
  {
    var d, p, x := GetNodesDifference(cmpWith, cmpTo), FirstUnequal(cmpWith, cmpTo), cmpTo[k].id;
    DifferenceFields(cmpWith, cmpTo);
    var la := |cmpWith| - |d.addNodes|;
    TextsAtForeignSuffix(cmpWith, la, x);
    assert d.addNodes == cmpWith[la..];
    assert d.looselyEqualNodeDiff.Some? ==> d.looselyEqualNodeDiff.value.ele == cmpTo[p] && p < k;
  }

  /** The node is among the removed ones. */
  lemma DroppedLosesAll(cmpWith: seq<Node>, cmpTo: seq<Node>, k: nat)
    requires Fresh(cmpWith, cmpTo) && k < |cmpTo| && !Kept(cmpWith, cmpTo, k)
    ensures RemovedAt(GetNodesDifference(cmpWith, cmpTo), cmpTo[k].id) >= |cmpTo[k].text|
  {
    var d := GetNodesDifference(cmpWith, cmpTo);
    DifferenceFields(cmpWith, cmpTo);
    var lo := |cmpTo| - |d.delNodes|;
    assert d.delNodes == cmpTo[lo..] && lo <= k;
    TextsAtSuffix(cmpTo, lo, k);
  }

  /** What the difference does to a typed node: a kept node ends with the new
      text of its position, any other typed node with "". */
  lemma TypedValue(cmpWith: seq<Node>, cmpTo: seq<Node>, k: nat)
    requires Fresh(cmpWith, cmpTo) && k < |cmpTo|
    ensures var d, x := GetNodesDifference(cmpWith, cmpTo), cmpTo[k].id;
      Dropped(cmpTo[k].text, RemovedAt(d, x)) + AppendedAt(d, x) == if Kept(cmpWith, cmpTo, k) then cmpWith[k].text else ""
  {
    var d, p, x := GetNodesDifference(cmpWith, cmpTo), FirstUnequal(cmpWith, cmpTo), cmpTo[k].id;
    var t := cmpTo[k].text;
    if k < p {
      TypedValuePrefix(cmpWith, cmpTo, k);
      assert IsEqualNode(cmpWith[k], cmpTo[k]);
      DroppedBounds(t, 0);
    } else if Kept(cmpWith, cmpTo, k) {
      TypedValuePartial(cmpWith, cmpTo);
      var wd := GetWordDifference(cmpWith[p].text, cmpTo[p].text);
      var q := CommonPrefixLength(cmpWith[p].text, cmpTo[p].text);
      assert t == t[..q] + wd.dels && cmpWith[p].text == t[..q] + wd.adds;
      DroppedSuffix(t[..q], wd.dels);
    } else {
      TypedValueDropped(cmpWith, cmpTo, k);
      DroppedBounds(t, RemovedAt(d, x));
    }
  }

  /** Where the added nodes start: after the first difference, or right at it
      when the node there is not edited in place. */
  function AddedFrom(cmpWith: seq<Node>, cmpTo: seq<Node>): nat
  {
    var p := FirstUnequal(cmpWith, cmpTo);
    if p < |cmpWith| && p < |cmpTo| && IsLooselyEqualNodes(cmpWith[p], cmpTo[p]) then p + 1 else p
  }

  /** The added nodes are the clones from `AddedFrom` on, and no removal and no
      partial edit touches a clone. */
  lemma CloneFields(cmpWith: seq<Node>, cmpTo: seq<Node>, k: nat)
    requires Fresh(cmpWith, cmpTo) && k < |cmpWith|
    ensures var d, x := GetNodesDifference(cmpWith, cmpTo), cmpWith[k].id;
      RemovedAt(d, x) == 0 && AppendedAt(d, x) == TextsAt(cmpWith[AddedFrom(cmpWith, cmpTo)..], x)
  {
    CloneNotRemoved(cmpWith, cmpTo, k);
    CloneAppended(cmpWith, cmpTo, k);
  }

  /** The partial edit, if any, is on a typed node, never on a clone. */
  lemma PartialNotClone(cmpWith: seq<Node>, cmpTo: seq<Node>, k: nat)
    requires Fresh(cmpWith, cmpTo) && k < |cmpWith|
    ensures var d := GetNodesDifference(cmpWith, cmpTo);
      d.looselyEqualNodeDiff.Some? ==> d.looselyEqualNodeDiff.value.ele.id != cmpWith[k].id
  {
    var d, p := GetNodesDifference(cmpWith, cmpTo), FirstUnequal(cmpWith, cmpTo);
    if d.looselyEqualNodeDiff.Some? {
      assert p < |cmpTo| && d.looselyEqualNodeDiff.value.ele == cmpTo[p];
    }
  }

  lemma CloneNotRemoved(cmpWith: seq<Node>, cmpTo: seq<Node>, k: nat)
    requires Fresh(cmpWith, cmpTo) && k < |cmpWith|
    ensures RemovedAt(GetNodesDifference(cmpWith, cmpTo), cmpWith[k].id) == 0
  {
    var d, x := GetNodesDifference(cmpWith, cmpTo), cmpWith[k].id;
    PartialNotClone(cmpWith, cmpTo, k);
    TextsAtForeignSuffix(cmpTo, |cmpTo| - |d.delNodes|, x);
  }

  lemma CloneAppended(cmpWith: seq<Node>, cmpTo: seq<Node>, k: nat)
    requires Fresh(cmpWith, cmpTo) && k < |cmpWith|
    ensures AppendedAt(GetNodesDifference(cmpWith, cmpTo), cmpWith[k].id)
         == TextsAt(cmpWith[AddedFrom(cmpWith, cmpTo)..], cmpWith[k].id)
  {
    var d := GetNodesDifference(cmpWith, cmpTo);
    PartialNotClone(cmpWith, cmpTo, k);
    DifferenceFields(cmpWith, cmpTo);
    assert d.addNodes == cmpWith[AddedFrom(cmpWith, cmpTo)..];
  }

  /** A clone shows on its position exactly when it is an added node. */
  lemma ShownClone(cmpWith: seq<Node>, cmpTo: seq<Node>, k: nat)
    requires k < |cmpWith|
    ensures (Shown(cmpWith, cmpTo, k) == cmpWith[k].id) <== (AddedFrom(cmpWith, cmpTo) <= k)
    ensures Fresh(cmpWith, cmpTo) ==> ((Shown(cmpWith, cmpTo, k) == cmpWith[k].id) ==> (AddedFrom(cmpWith, cmpTo) <= k))
  {
    var p := FirstUnequal(cmpWith, cmpTo);
    if k < AddedFrom(cmpWith, cmpTo) && Fresh(cmpWith, cmpTo) {
      assert k < |cmpTo| && Kept(cmpWith, cmpTo, k);
      assert cmpTo[k].id != cmpWith[k].id;
    }
  }

  /** What the difference does to a clone, which starts empty: an added clone
      ends with its text, any other clone with "". */
  lemma CloneValue(cmpWith: seq<Node>, cmpTo: seq<Node>, k: nat)
    requires Fresh(cmpWith, cmpTo) && k < |cmpWith|
    ensures var d, x := GetNodesDifference(cmpWith, cmpTo), cmpWith[k].id;
      Dropped("", RemovedAt(d, x)) + AppendedAt(d, x) == if Shown(cmpWith, cmpTo, k) == x then cmpWith[k].text else ""
  {
    var d, x := GetNodesDifference(cmpWith, cmpTo), cmpWith[k].id;
    CloneFields(cmpWith, cmpTo, k);
    ShownClone(cmpWith, cmpTo, k);
    DroppedBounds("", 0);
    TextsAtSuffix(cmpWith, AddedFrom(cmpWith, cmpTo), k);
  }

  /** A node in neither list is not touched. */
  lemma ForeignValue(cmpWith: seq<Node>, cmpTo: seq<Node>, x: NodeId)
    requires !HasId(cmpWith, x) && !HasId(cmpTo, x)
    ensures var d := GetNodesDifference(cmpWith, cmpTo);
      RemovedAt(d, x) == 0 && AppendedAt(d, x) == ""
  {
    var d := GetNodesDifference(cmpWith, cmpTo);
    DifferenceFields(cmpWith, cmpTo);
    TextsAtForeignSuffix(cmpTo, |cmpTo| - |d.delNodes|, x);
    TextsAtForeignSuffix(cmpWith, |cmpWith| - |d.addNodes|, x);
  }

  /** After a script that started from `s`, every position of the new content
      shows its text on the node `Shown` names, every typed node no longer kept
      is empty, every clone not used is empty, and no other node changed. */
  ghost predicate ShowsContent(r: Surface, s: Surface, cmpWith: seq<Node>, cmpTo: seq<Node>)
  {
    && (forall k :: 0 <= k < |cmpWith| ==> TextOf(r, Shown(cmpWith, cmpTo, k)) == cmpWith[k].text)
    && (forall k :: 0 <= k < |cmpTo| && !Kept(cmpWith, cmpTo, k) ==> TextOf(r, cmpTo[k].id) == "")
    && (forall k :: 0 <= k < |cmpWith| && Shown(cmpWith, cmpTo, k) != cmpWith[k].id ==> TextOf(r, cmpWith[k].id) == "")
    && (forall x :: !HasId(cmpWith, x) && !HasId(cmpTo, x) ==> TextOf(r, x) == TextOf(s, x))
  }

  /** Every clone ends with its text when it shows its position, with "" otherwise. */
  lemma CloneTexts(s: Surface, cmpWith: seq<Node>, cmpTo: seq<Node>)
    requires Fresh(cmpWith, cmpTo) && Showing(s, cmpWith, cmpTo)
    ensures var r := Play(s, Assemble(GetNodesDifference(cmpWith, cmpTo)));
      forall k :: 0 <= k < |cmpWith| ==>
        TextOf(r, cmpWith[k].id) == if Shown(cmpWith, cmpTo, k) == cmpWith[k].id then cmpWith[k].text else ""
  {
    var d := GetNodesDifference(cmpWith, cmpTo);
    forall k | 0 <= k < |cmpWith|
      ensures TextOf(Play(s, Assemble(d)), cmpWith[k].id) == if Shown(cmpWith, cmpTo, k) == cmpWith[k].id then cmpWith[k].text else ""
    {
      AssembleAt(s, d, cmpWith[k].id);
      CloneValue(cmpWith, cmpTo, k);
    }
  }

  /** Every typed node ends with the new text of its position when it is kept,
      with "" otherwise. */
  lemma TypedTexts(s: Surface, cmpWith: seq<Node>, cmpTo: seq<Node>)
    requires Fresh(cmpWith, cmpTo) && Showing(s, cmpWith, cmpTo)
    ensures var r := Play(s, Assemble(GetNodesDifference(cmpWith, cmpTo)));
      forall k :: 0 <= k < |cmpTo| ==>
        TextOf(r, cmpTo[k].id) == if Kept(cmpWith, cmpTo, k) then cmpWith[k].text else ""
  {
    var d := GetNodesDifference(cmpWith, cmpTo);
    forall k | 0 <= k < |cmpTo|
      ensures TextOf(Play(s, Assemble(d)), cmpTo[k].id) == if Kept(cmpWith, cmpTo, k) then cmpWith[k].text else ""
    {
      AssembleAt(s, d, cmpTo[k].id);
      TypedValue(cmpWith, cmpTo, k);
    }
  }

  /** No node outside both lists changes. */
  lemma ForeignTexts(s: Surface, cmpWith: seq<Node>, cmpTo: seq<Node>)
    ensures var r := Play(s, Assemble(GetNodesDifference(cmpWith, cmpTo)));
      forall x :: !HasId(cmpWith, x) && !HasId(cmpTo, x) ==> TextOf(r, x) == TextOf(s, x)
  {
    var d := GetNodesDifference(cmpWith, cmpTo);
    forall x | !HasId(cmpWith, x) && !HasId(cmpTo, x)
      ensures TextOf(Play(s, Assemble(d)), x) == TextOf(s, x)
    {
      AssembleAt(s, d, x);
      ForeignValue(cmpWith, cmpTo, x);
      DroppedBounds(TextOf(s, x), 0);
    }
  }

  /** The round trip: the assembled script shows the new content. */
  lemma RoundTrip(s: Surface, cmpWith: seq<Node>, cmpTo: seq<Node>)
    requires Fresh(cmpWith, cmpTo) && Showing(s, cmpWith, cmpTo)
    ensures ShowsContent(Play(s, Assemble(GetNodesDifference(cmpWith, cmpTo))), s, cmpWith, cmpTo)
  {
    CloneTexts(s, cmpWith, cmpTo);
    TypedTexts(s, cmpWith, cmpTo);
    ForeignTexts(s, cmpWith, cmpTo);
  }

  /** The delay pass changes no text: it only rewrites delays. */
  lemma DelayPassKeepsTexts(s: Surface, ls: seq<Op>)
    ensures Play(s, DelayPass(ls)) == Play(s, ls)
  {
    DelayPassShape(ls);
    PlayIgnoresDelays(s, DelayPass(ls), ls);
  }

  /** The delay pass keeps a script that only types characters so. */
  lemma TypedDelayPass(ls: seq<Op>)
    requires Typed(ls)
    ensures Typed(DelayPass(ls))
  {
    DelayPassShape(ls);
  }

  /** Any script with the same effect on every node shows the content too. */
  lemma ShowsContentSameTexts(r: Surface, r2: Surface, s: Surface, cmpWith: seq<Node>, cmpTo: seq<Node>)
    requires ShowsContent(r, s, cmpWith, cmpTo) && SameTexts(r2, r)
    ensures ShowsContent(r2, s, cmpWith, cmpTo)
  {
  }

  /** The round trip through both passes, with the typo pass restricted to runs
      that only type characters: whatever the draws, the content is shown. */
  lemma GuardedRoundTrip(s: Surface, cmpWith: seq<Node>, cmpTo: seq<Node>, rand: nat -> real)
    requires Uniform(rand)
    requires Fresh(cmpWith, cmpTo) && Showing(s, cmpWith, cmpTo)
    ensures ShowsContent(Play(s, GuardedBurstPass(DelayPass(Assemble(GetNodesDifference(cmpWith, cmpTo))), rand)), s, cmpWith, cmpTo)
  {
    var a := Assemble(GetNodesDifference(cmpWith, cmpTo));
    RoundTrip(s, cmpWith, cmpTo);
    GuardedPassKeepsText(s, DelayPass(a), rand);
    DelayPassKeepsTexts(s, a);
    ShowsContentSameTexts(Play(s, a), Play(s, GuardedBurstPass(DelayPass(a), rand)), s, cmpWith, cmpTo);
  }

  /** The round trip through both passes as the source has them, when no draw
      triggers a typo. */
  lemma QuietRoundTrip(s: Surface, cmpWith: seq<Node>, cmpTo: seq<Node>, rand: nat -> real)
    requires Uniform(rand)
    requires forall k :: k % 2 == 1 ==> rand(k) >= 1.0 / 40.0
    requires Fresh(cmpWith, cmpTo) && Showing(s, cmpWith, cmpTo)
    ensures ShowsContent(Play(s, BurstPass(DelayPass(Assemble(GetNodesDifference(cmpWith, cmpTo))), rand)), s, cmpWith, cmpTo)
  {
    var a := Assemble(GetNodesDifference(cmpWith, cmpTo));
    RoundTrip(s, cmpWith, cmpTo);
    QuietPassUnchanged(DelayPass(a), rand);
    DelayPassKeepsTexts(s, a);
  }

  /** The round trip through both passes as the source has them, when the script
      only types characters (nothing to delete, no empty node to add): the typos
      then always cancel out. */
  lemma TypedRoundTrip(s: Surface, cmpWith: seq<Node>, cmpTo: seq<Node>, rand: nat -> real)
    requires Uniform(rand)
    requires Typed(Assemble(GetNodesDifference(cmpWith, cmpTo)))
    requires Fresh(cmpWith, cmpTo) && Showing(s, cmpWith, cmpTo)
    ensures ShowsContent(Play(s, BurstPass(DelayPass(Assemble(GetNodesDifference(cmpWith, cmpTo))), rand)), s, cmpWith, cmpTo)
  {
    var a := Assemble(GetNodesDifference(cmpWith, cmpTo));
    RoundTrip(s, cmpWith, cmpTo);
    TypedDelayPass(a);
    TypedPassKeepsText(s, DelayPass(a), rand);
    DelayPassKeepsTexts(s, a);
    ShowsContentSameTexts(Play(s, a), Play(s, BurstPass(DelayPass(a), rand)), s, cmpWith, cmpTo);
  }
}
