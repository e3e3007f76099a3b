/** Which nodes a script acts on: every operation `run` plays is on a typed node
    or on one of the clones of the hidden container, through every stage of the
    script's construction. */
module Footprint {
  import opened Wrappers
  import opened Nodes
  import opened NodesDiff
  import opened Script
  import opened Delays
  import opened Bursts
  import opened Executable

  /** The identities of a list of nodes. */
  function Ids(ns: seq<Node>): (r: set<NodeId>)
    ensures forall x :: x in r <==> HasId(ns, x)
  {
    set k | 0 <= k < |ns| :: ns[k].id
  }

  /** Every operation of the script is on a node of `ids`. */
  predicate TouchesOnly(ops: seq<Op>, ids: set<NodeId>)
  {
    forall k :: 0 <= k < |ops| ==> ops[k].ele in ids
  }

  lemma {:induction false} NodesLettersTouch(nodes: seq<Node>, overrideLetter: Option<Letter>)
    ensures TouchesOnly(NodesLetters(nodes, overrideLetter), Ids(nodes))
  {
    if nodes != [] {
      var init, last := nodes[..|nodes| - 1], nodes[|nodes| - 1];
      NodesLettersTouch(init, overrideLetter);
      assert Ids(init) <= Ids(nodes) by {
        forall x | x in Ids(init) ensures x in Ids(nodes) {
          var k :| 0 <= k < |init| && init[k].id == x;
          assert nodes[k].id == x;
        }
      }
      assert last.id in Ids(nodes) by { assert nodes[|nodes| - 1].id == last.id; }
      assert TouchesOnly(NodeLetters(last, overrideLetter), {last.id});
    }
  }

  /** `nodesToLetters` acts on its nodes and its partial node only. */
  lemma LettersOfTouch(nodes: seq<Node>, partialNode: Option<PartialNode>, overrideLetter: Option<Letter>, ids: set<NodeId>)
    requires Ids(nodes) <= ids
    requires partialNode.Some? ==> partialNode.value.node.id in ids
    ensures TouchesOnly(LettersOf(nodes, partialNode, overrideLetter), ids)
  {
    NodesLettersTouch(nodes, overrideLetter);
  }

  /** Every node of a suffix is a node of the list. */
  lemma SuffixIds(ns: seq<Node>, lo: nat)
    requires lo <= |ns|
    ensures Ids(ns[lo..]) <= Ids(ns)
  {
    forall x | x in Ids(ns[lo..]) ensures x in Ids(ns) {
      var k :| 0 <= k < |ns[lo..]| && ns[lo..][k].id == x;
      assert ns[lo + k].id == x;
    }
  }

  lemma TouchesConcat(a: seq<Op>, b: seq<Op>, ids: set<NodeId>)
    requires TouchesOnly(a, ids) && TouchesOnly(b, ids)
    ensures TouchesOnly(a + b, ids)
  {
    forall k | 0 <= k < |a + b| ensures (a + b)[k].ele in ids {
      if k < |a| {
        assert (a + b)[k] == a[k];
      } else {
        assert (a + b)[k] == b[k - |a|];
      }
    }
  }

  lemma ReverseTouches(b: seq<Op>, ids: set<NodeId>)
    requires TouchesOnly(b, ids)
    ensures TouchesOnly(Reverse(b), ids)
  {
    forall k | 0 <= k < |b| ensures Reverse(b)[k].ele in ids {
      assert Reverse(b)[k] == b[|b| - 1 - k];
    }
  }

  /** Both halves act on the new content's nodes and the typed ones: the
      removed and the added nodes are suffixes, the partial node a typed one. */
  lemma HalvesTouch(cmpWith: seq<Node>, cmpTo: seq<Node>)
    ensures var d := GetNodesDifference(cmpWith, cmpTo);
      && TouchesOnly(BkspcHalf(d), Ids(cmpWith) + Ids(cmpTo))
      && TouchesOnly(TypedHalf(d), Ids(cmpWith) + Ids(cmpTo))
  {
    var d, p := GetNodesDifference(cmpWith, cmpTo), FirstUnequal(cmpWith, cmpTo);
    var ids := Ids(cmpWith) + Ids(cmpTo);
    SuffixIds(cmpTo, |cmpTo| - |d.delNodes|);
    SuffixIds(cmpWith, |cmpWith| - |d.addNodes|);
    if d.looselyEqualNodeDiff.Some? {
      assert p < |cmpTo| && d.looselyEqualNodeDiff.value.ele == cmpTo[p];
      assert cmpTo[p].id in Ids(cmpTo);
    }
    LettersOfTouch(d.delNodes, BkspcsPartialNode(d), Some(Bkspc), ids);
    LettersOfTouch(d.addNodes, LettersPartialNode(d), None, ids);
  }

  /** The assembled script acts on the new content's nodes and the typed ones. */
  lemma AssembleTouches(cmpWith: seq<Node>, cmpTo: seq<Node>)
    ensures TouchesOnly(Assemble(GetNodesDifference(cmpWith, cmpTo)), Ids(cmpWith) + Ids(cmpTo))
  {
    var d := GetNodesDifference(cmpWith, cmpTo);
    var ids := Ids(cmpWith) + Ids(cmpTo);
    HalvesTouch(cmpWith, cmpTo);
    ReverseTouches(BkspcHalf(d), ids);
    TouchesConcat(Reverse(BkspcHalf(d)), TypedHalf(d), ids);
  }

  lemma DelayPassTouches(ls: seq<Op>, ids: set<NodeId>)
    requires TouchesOnly(ls, ids)
    ensures TouchesOnly(DelayPass(ls), ids)
  {
    DelayPassShape(ls);
  }

  /** A burst adds operations only on the nodes of its run. */
  lemma BurstAtTouches(ls: seq<Op>, i: nat, c: nat, kindDraw: real, letterDraw: real, ids: set<NodeId>)
    requires 1 <= c <= i < |ls|
    requires 0.0 <= letterDraw < 1.0
    requires TouchesOnly(ls, ids)
    ensures TouchesOnly(BurstAt(ls, i, c, kindDraw, letterDraw), ids)
  {
    var start := i - (c - 1);
    BurstAtIndex(ls, i, c, kindDraw, letterDraw);
    TypoShape(ls[start..i + 1], kindDraw, letterDraw);
    var r := BurstAt(ls, i, c, kindDraw, letterDraw);
    forall k | start <= k <= i ensures r[k].ele in ids {
      assert r[k].ele == ls[start..i + 1][k - start].ele == ls[k].ele;
    }
    forall k | i < k <= i + c ensures r[k].ele in ids {
      assert r[k].ele == ls[i - (k - i - 1)].ele;
    }
  }

  lemma BurstingTouches(st: Scan, rand: nat -> real, c: nat, ids: set<NodeId>)
    requires Uniform(rand) && Resumable(st) && st.i < |st.letters|
    requires 1 <= c <= st.i
    requires TouchesOnly(st.letters, ids)
    ensures TouchesOnly(Bursting(st, rand, c).letters, ids)
  {
    BurstAtTouches(st.letters, st.i, c, rand(st.draws + 2), rand(st.draws + 3), ids);
  }

  lemma BurstStepTouches(st: Scan, rand: nat -> real, ids: set<NodeId>)
    requires Uniform(rand) && Resumable(st) && st.i < |st.letters|
    requires TouchesOnly(st.letters, ids)
    ensures TouchesOnly(GuardedBurstStep(st, rand).letters, ids)
  {
    var c := RunLength(st, rand);
    if rand(st.draws + 1) < 1.0 / 40.0 && Typed(st.letters[st.i - (c - 1)..st.i + 1]) {
      assert GuardedBurstStep(st, rand) == Bursting(st, rand, c);
      BurstingTouches(st, rand, c, ids);
    } else {
      GuardedPasses(st, rand);
    }
  }

  lemma {:induction false} BurstScanTouches(st: Scan, rand: nat -> real, ids: set<NodeId>)
    requires Uniform(rand) && Resumable(st)
    requires TouchesOnly(st.letters, ids)
    ensures TouchesOnly(GuardedBurstScan(st, rand), ids)
    decreases |st.letters| - st.i
  {
    if st.i < |st.letters| {
      BurstStepTouches(st, rand, ids);
      BurstScanTouches(GuardedBurstStep(st, rand), rand, ids);
    }
  }

  /** The script of `run` acts only on the clones and the typed nodes. */
  lemma ScriptForTouches(container: seq<Node>, typed: seq<Node>, base: nat, rand: nat -> real)
    requires Uniform(rand)
    ensures TouchesOnly(ScriptFor(container, typed, base, rand), Ids(Clones(container, base)) + Ids(typed))
  {
    var ids := Ids(Clones(container, base)) + Ids(typed);
    var a := Assemble(GetNodesDifference(Clones(container, base), typed));
    AssembleTouches(Clones(container, base), typed);
    DelayPassTouches(a, ids);
    BurstScanTouches(Scan(DelayPass(a), Min, None, 0), rand, ids);
  }
}
