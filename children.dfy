/** The child list of a container element, by node identity, and the DOM's
    `insertBefore` on it, as the player uses it to move each node it types
    into in front of the cursor. */
module Children {
  import opened Nodes
  import opened Script

  /** No child appears twice. */
  predicate Distinct(c: seq<NodeId>)
  {
    forall j, k :: 0 <= j < k < |c| ==> c[j] != c[k]
  }

  lemma DistinctSnoc(a: seq<NodeId>, x: NodeId)
    requires Distinct(a) && x !in a
    ensures Distinct(a + [x])
  {
    var r := a + [x];
    forall j, k | 0 <= j < k < |r| ensures r[j] != r[k] {
      if k == |a| {
        assert r[j] == a[j] && a[j] in a;
      } else {
        assert r[j] == a[j] && r[k] == a[k];
      }
    }
  }

  /** The children other than `id`, in their order. */
  function Without(c: seq<NodeId>, id: NodeId): (r: seq<NodeId>)
    ensures forall x :: x in r <==> x in c && x != id
  {
    if c == [] then []
    else Without(c[..|c| - 1], id) + (if c[|c| - 1] == id then [] else [c[|c| - 1]])
  }

  lemma {:induction false} WithoutDistinct(c: seq<NodeId>, id: NodeId)
    requires Distinct(c)
    ensures Distinct(Without(c, id))
  {
    if c != [] {
      var init, last := c[..|c| - 1], c[|c| - 1];
      assert Distinct(init) by {
        forall j, k | 0 <= j < k < |init| ensures init[j] != init[k] {
          assert init[j] == c[j] && init[k] == c[k];
        }
      }
      WithoutDistinct(init, id);
      if last != id {
        assert last !in init by {
          forall j | 0 <= j < |init| ensures init[j] != last {
            assert init[j] == c[j] && last == c[|c| - 1];
          }
        }
        DistinctSnoc(Without(init, id), last);
      }
    }
  }

  /** Removing a child that is not there changes nothing. */
  lemma {:induction false} WithoutAbsent(c: seq<NodeId>, id: NodeId)
    requires id !in c
    ensures Without(c, id) == c
  {
    if c != [] {
      WithoutAbsent(c[..|c| - 1], id);
      assert c == c[..|c| - 1] + [c[|c| - 1]];
    }
  }

  lemma {:induction false} WithoutConcat(a: seq<NodeId>, b: seq<NodeId>, id: NodeId)
    ensures Without(a + b, id) == Without(a, id) + Without(b, id)
    decreases |b|
  {
    if b == [] {
      assert a + b == a;
    } else {
      assert (a + b)[..|a + b| - 1] == a + b[..|b| - 1];
      WithoutConcat(a, b[..|b| - 1], id);
    }
  }

  lemma WithoutSingle(x: NodeId, id: NodeId)
    ensures Without([x], id) == if x == id then [] else [x]
  {
    assert [x][..0] == [];
  }

  /** The position of the first occurrence of `x`. */
  function IndexOf(c: seq<NodeId>, x: NodeId): (j: nat)
    requires x in c
    ensures j < |c| && c[j] == x
    ensures forall k :: 0 <= k < j ==> c[k] != x
  {
    if c[0] == x then 0 else 1 + IndexOf(c[1..], x)
  }

  /** `parent.insertBefore(node, ref)`: the node leaves its place among the
      children, if it has one, and goes right before `ref`. Inserting a node
      before itself leaves the children as they are; a `ref` that is not a
      child (where the DOM throws) is never passed by the player and leaves
      them as they are too. */
  function InsertBefore(c: seq<NodeId>, id: NodeId, ref: NodeId): (r: seq<NodeId>)
    ensures ref in c && id != ref ==> forall x :: x in r <==> x in c || x == id
  {
    if ref in c && id != ref then
      var w := Without(c, id);
      var j := IndexOf(w, ref);
      assert w[..j] + w[j..] == w;
      w[..j] + [id] + w[j..]
    else c
  }

  /** With `ref` the last child, the node ends up last but one and every other
      child keeps its place in the order. */
  lemma InsertBeforeLast(c: seq<NodeId>, id: NodeId, ref: NodeId)
    requires Distinct(c) && |c| > 0 && c[|c| - 1] == ref && id != ref
    ensures InsertBefore(c, id, ref) == Without(c[..|c| - 1], id) + [id, ref]
  {
    var init := c[..|c| - 1];
    var u := Without(init, id);
    LastNotInInit(c);
    var w := Without(c, id);
    assert w == u + [ref];
    var j := IndexOf(w, ref);
    assert ref !in u;
    assert w[..j] == u && w[j..] == [ref];
  }

  /** Moving a node before the last child keeps the children distinct and that
      child last. */
  lemma InsertBeforeLastDistinct(c: seq<NodeId>, id: NodeId, ref: NodeId)
    requires Distinct(c) && |c| > 0 && c[|c| - 1] == ref && id != ref
    ensures var r := InsertBefore(c, id, ref);
      Distinct(r) && |r| >= 2 && r[|r| - 1] == ref && r[|r| - 2] == id
  {
    InsertBeforeLast(c, id, ref);
    var init := c[..|c| - 1];
    assert Distinct(init) by {
      forall j, k | 0 <= j < k < |init| ensures init[j] != init[k] {
        assert init[j] == c[j] && init[k] == c[k];
      }
    }
    LastNotInInit(c);
    var u := Without(init, id);
    WithoutDistinct(init, id);
    DistinctSnoc(u, id);
    DistinctSnoc(u + [id], ref);
    assert u + [id] + [ref] == u + [id, ref];
  }

  /** Read without the cursor: the markup after the move is the markup before
      it without the node, then the node. */
  lemma InsertBeforeLastMarkup(c: seq<NodeId>, id: NodeId, ref: NodeId)
    requires Distinct(c) && |c| > 0 && c[|c| - 1] == ref && id != ref
    ensures Without(InsertBefore(c, id, ref), ref) == Without(Without(c, ref), id) + [id]
  {
    InsertBeforeLast(c, id, ref);
    var init := c[..|c| - 1];
    LastNotInInit(c);
    var v := Without(init, id) + [id];
    assert ref !in v;
    assert InsertBefore(c, id, ref) == v + [ref];
    WithoutAppended(v, ref);
    WithoutLast(c);
  }

  /** Taking out a last child found nowhere else gives back the others. */
  lemma WithoutLast(c: seq<NodeId>)
    requires |c| > 0 && c[|c| - 1] !in c[..|c| - 1]
    ensures Without(c, c[|c| - 1]) == c[..|c| - 1]
  {
    WithoutAbsent(c[..|c| - 1], c[|c| - 1]);
  }

  /** The last child is not among the others. */
  lemma LastNotInInit(c: seq<NodeId>)
    requires Distinct(c) && |c| > 0
    ensures c[|c| - 1] !in c[..|c| - 1]
  {
    var init := c[..|c| - 1];
    forall j | 0 <= j < |init| ensures init[j] != c[|c| - 1] {
      assert init[j] == c[j];
    }
  }

  /** Taking out a child just appended gives back the others. */
  lemma WithoutAppended(v: seq<NodeId>, ref: NodeId)
    requires ref !in v
    ensures Without(v + [ref], ref) == v
  {
    WithoutConcat(v, [ref], ref);
    WithoutSingle(ref, ref);
    WithoutAbsent(v, ref);
  }

  /** Taking out a node just put in gives back the children without it. */
  lemma WithoutInserted(w: seq<NodeId>, j: nat, id: NodeId)
    requires j <= |w| && id !in w
    ensures Without(w[..j] + [id] + w[j..], id) == w
  {
    var a, b := w[..j], w[j..];
    assert w == a + b;
    assert id !in a && id !in b by {
      assert forall k :: 0 <= k < |a| ==> a[k] == w[k];
      assert forall k :: 0 <= k < |b| ==> b[k] == w[j + k];
    }
    assert Without(a + [id], id) == a by {
      WithoutAppended(a, id);
    }
    WithoutConcat(a + [id], b, id);
    WithoutAbsent(b, id);
  }

  /** Moving a node before `ref` twice is moving it once. */
  lemma InsertBeforeAgain(c: seq<NodeId>, id: NodeId, ref: NodeId)
    ensures InsertBefore(InsertBefore(c, id, ref), id, ref) == InsertBefore(c, id, ref)
  {
    if ref in c && id != ref {
      var w := Without(c, id);
      var j := IndexOf(w, ref);
      WithoutInserted(w, j, id);
    }
  }

  /** The children after the script's `insertBefore(op.ele, ref)` calls. */
  function AttachAll(c: seq<NodeId>, ops: seq<Op>, ref: NodeId): seq<NodeId>
  {
    if ops == [] then c else InsertBefore(AttachAll(c, ops[..|ops| - 1], ref), ops[|ops| - 1].ele, ref)
  }

  /** Some operation of the script is on node `x`. */
  predicate Touches(ops: seq<Op>, x: NodeId)
  {
    exists k :: 0 <= k < |ops| && ops[k].ele == x
  }

  /** With `ref` last and never the target, after the script the children are
      the old ones and the script's nodes, none twice, `ref` still last and the
      last node the script acted on right before it. */
  lemma {:induction false} AttachAllShape(c: seq<NodeId>, ops: seq<Op>, ref: NodeId)
    requires Distinct(c) && |c| > 0 && c[|c| - 1] == ref
    requires forall k :: 0 <= k < |ops| ==> ops[k].ele != ref
    ensures var r := AttachAll(c, ops, ref);
      && (forall x :: x in r <==> x in c || Touches(ops, x))
      && Distinct(r) && |r| > 0 && r[|r| - 1] == ref
      && (ops != [] ==> |r| >= 2 && r[|r| - 2] == ops[|ops| - 1].ele)
  {
    if ops != [] {
      var init, last := ops[..|ops| - 1], ops[|ops| - 1];
      AttachAllShape(c, init, ref);
      var a := AttachAll(c, init, ref);
      TouchesSnoc(ops);
      InsertBeforeLastDistinct(a, last.ele, ref);
      assert AttachAll(c, ops, ref) == InsertBefore(a, last.ele, ref);
    }
  }

  /** The nodes a script acts on are those of all but its last operation, and
      that operation's. */
  lemma TouchesSnoc(ops: seq<Op>)
    requires ops != []
    ensures forall x :: Touches(ops, x) <==> Touches(ops[..|ops| - 1], x) || x == ops[|ops| - 1].ele
  {
    var init, last := ops[..|ops| - 1], ops[|ops| - 1];
    forall x ensures Touches(ops, x) <==> Touches(init, x) || x == last.ele {
      if Touches(init, x) {
        var k :| 0 <= k < |init| && init[k].ele == x;
        assert ops[k].ele == x;
      }
      if Touches(ops, x) && x != last.ele {
        var k :| 0 <= k < |ops| && ops[k].ele == x;
        assert init[k].ele == x;
      }
    }
  }
}
