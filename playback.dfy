/** What playing a letter script does to the texts of the nodes: the apply step
    of the player's timer callback, without the timers. */
module Playback {
  import opened Nodes
  import opened Script
  import opened Slices

  /** The text of every node the player can touch, by identity. */
  type Surface = map<NodeId, string>

  function TextOf(s: Surface, id: NodeId): string
  {
    if id in s then s[id] else ""
  }

  /** One step: a backspace sets the node's text to `text.slice(0, -1)`, any other
      operation to `text + letter`. Only the node the operation targets changes;
      a backspace removes its last character (or leaves "" as it is), a character
      is appended, "" appends nothing. */
  function ApplyOp(s: Surface, op: Op): (r: Surface)
    ensures forall id :: id != op.ele ==> TextOf(r, id) == TextOf(s, id)
    ensures op.letter == Bkspc && TextOf(s, op.ele) == "" ==> TextOf(r, op.ele) == ""
    ensures op.letter == Bkspc && TextOf(s, op.ele) != "" ==>
      TextOf(r, op.ele) + [TextOf(s, op.ele)[|TextOf(s, op.ele)| - 1]] == TextOf(s, op.ele)
    ensures op.letter == Empty ==> TextOf(r, op.ele) == TextOf(s, op.ele)
    ensures op.letter.Ch? ==> TextOf(r, op.ele) == TextOf(s, op.ele) + [op.letter.c]
  {
    var text := TextOf(s, op.ele);
    DropLastSlice(text);
    assert text + "" == text;
    s[op.ele := if op.letter == Bkspc then JsSlice(text, 0, -1) else text + LetterString(op.letter)]
  }

  /** The surface after the operations, applied strictly in index order. */
  function Play(s: Surface, ops: seq<Op>): Surface
  {
    if ops == [] then s else ApplyOp(Play(s, ops[..|ops| - 1]), ops[|ops| - 1])
  }

  lemma {:induction false} PlayConcat(s: Surface, a: seq<Op>, b: seq<Op>)
    ensures Play(s, a + b) == Play(Play(s, a), b)
    decreases |b|
  {
    if b == [] {
      assert a + b == a;
    } else {
      assert (a + b)[..|a + b| - 1] == a + b[..|b| - 1];
      PlayConcat(s, a, b[..|b| - 1]);
    }
  }

  /** Two scripts with the same letters on the same nodes have the same effect,
      whatever their delays. */
  lemma {:induction false} PlayIgnoresDelays(s: Surface, a: seq<Op>, b: seq<Op>)
    requires |a| == |b|
    requires forall k :: 0 <= k < |a| ==> a[k].letter == b[k].letter && a[k].ele == b[k].ele
    ensures Play(s, a) == Play(s, b)
  {
    if a != [] {
      var ai, bi := a[..|a| - 1], b[..|b| - 1];
      assert forall k :: 0 <= k < |ai| ==> ai[k] == a[k] && bi[k] == b[k];
      PlayIgnoresDelays(s, ai, bi);
      ApplyIgnoresDelay(Play(s, ai), a[|a| - 1], b[|b| - 1]);
    }
  }

  lemma ApplyIgnoresDelay(s: Surface, a: Op, b: Op)
    requires a.letter == b.letter && a.ele == b.ele
    ensures ApplyOp(s, a) == ApplyOp(s, b)
  {
  }

  /** The text left after removing `n` characters from the end. */
  function Dropped(t: string, n: nat): string
  {
    if n >= |t| then "" else t[..|t| - n]
  }

  /** Backspaces on node `x`. */
  function CountBkspcAt(ops: seq<Op>, x: NodeId): nat
  {
    if ops == [] then 0
    else CountBkspcAt(ops[..|ops| - 1], x) + (if ops[|ops| - 1].letter == Bkspc && ops[|ops| - 1].ele == x then 1 else 0)
  }

  /** What the non-backspace operations on node `x` type, in order. */
  function SpellAt(ops: seq<Op>, x: NodeId): string
  {
    if ops == [] then ""
    else
      var last := ops[|ops| - 1];
      SpellAt(ops[..|ops| - 1], x) + (if last.letter != Bkspc && last.ele == x then LetterString(last.letter) else "")
  }

  /** A script of backspaces and "" operations removes from each node as many
      characters as it holds backspaces for that node, whatever their order. */
  lemma {:induction false} PlayRemovals(s: Surface, ops: seq<Op>, x: NodeId)
    requires BkspcOrEmpty(ops)
    ensures TextOf(Play(s, ops), x) == Dropped(TextOf(s, x), CountBkspcAt(ops, x))
  {
    if ops != [] {
      var init, last := ops[..|ops| - 1], ops[|ops| - 1];
      assert BkspcOrEmpty(init) by {
        assert forall k :: 0 <= k < |init| ==> init[k] == ops[k];
      }
      PlayRemovals(s, init, x);
      if last.ele == x && last.letter == Bkspc {
        DroppedStep(TextOf(s, x), CountBkspcAt(init, x), TextOf(Play(s, init), x), TextOf(Play(s, ops), x));
      }
    }
  }

  /** A script of backspaces on node `x` alone counts one for each operation. */
  lemma {:induction false} CountBkspcAtAll(ops: seq<Op>, x: NodeId)
    requires forall k :: 0 <= k < |ops| ==> ops[k].letter == Bkspc && ops[k].ele == x
    ensures CountBkspcAt(ops, x) == |ops|
  {
    if ops != [] {
      CountBkspcAtAll(ops[..|ops| - 1], x);
    }
  }

  /** One backspace more removes one character more. */
  lemma DroppedStep(t: string, n: nat, before: string, after: string)
    requires before == Dropped(t, n)
    requires before == "" ==> after == ""
    requires before != "" ==> after + [before[|before| - 1]] == before
    ensures after == Dropped(t, n + 1)
  {
    if before != "" {
      assert before == t[..|t| - n];
      assert after == before[..|before| - 1];
    }
  }

  /** A script without backspaces appends to each node what it types for it. */
  lemma {:induction false} PlayTyping(s: Surface, ops: seq<Op>, x: NodeId)
    requires NoBkspc(ops)
    ensures TextOf(Play(s, ops), x) == TextOf(s, x) + SpellAt(ops, x)
  {
    if ops != [] {
      var init, last := ops[..|ops| - 1], ops[|ops| - 1];
      assert NoBkspc(init) by {
        assert forall k :: 0 <= k < |init| ==> init[k] == ops[k];
      }
      PlayTyping(s, init, x);
      assert last.letter != Bkspc;
      if last.ele == x && last.letter.Ch? {
        assert LetterString(last.letter) == [last.letter.c];
      }
    }
  }

  /** Two surfaces that show the same text on every node. */
  ghost predicate SameTexts(a: Surface, b: Surface)
  {
    forall id :: TextOf(a, id) == TextOf(b, id)
  }

  /** Playing a script only depends on the texts it starts from. */
  lemma {:induction false} PlaySameTexts(a: Surface, b: Surface, ops: seq<Op>)
    requires SameTexts(a, b)
    ensures SameTexts(Play(a, ops), Play(b, ops))
  {
    if ops != [] {
      var init, last := ops[..|ops| - 1], ops[|ops| - 1];
      PlaySameTexts(a, b, init);
      var pa, pb := Play(a, init), Play(b, init);
      var t := TextOf(pa, last.ele);
      if last.letter == Bkspc && t != "" {
        var ra, rb := TextOf(ApplyOp(pa, last), last.ele), TextOf(ApplyOp(pb, last), last.ele);
        assert ra + [t[|t| - 1]] == rb + [t[|t| - 1]];
        assert ra == (ra + [t[|t| - 1]])[..|ra|];
      }
    }
  }

  /** `bks` are backspaces on the nodes of `run`, last operation first. */
  predicate Undoes(run: seq<Op>, bks: seq<Op>)
  {
    |bks| == |run| &&
    forall j :: 0 <= j < |run| ==> bks[j].letter == Bkspc && bks[j].ele == run[|run| - 1 - j].ele
  }

  /** A backspace on the node a character was just typed into takes it away again. */
  lemma EraseTyped(s: Surface, middle: Surface, op: Op, bk: Op)
    requires op.letter.Ch? && bk.letter == Bkspc && bk.ele == op.ele
    requires SameTexts(middle, ApplyOp(s, op))
    ensures SameTexts(ApplyOp(middle, bk), s)
  {
    var t := TextOf(s, op.ele);
    assert TextOf(middle, op.ele) == t + [op.letter.c];
    var after := TextOf(ApplyOp(middle, bk), op.ele);
    assert after + [op.letter.c] == t + [op.letter.c];
    assert after == (after + [op.letter.c])[..|after|];
  }

  /** Typing characters and then backspacing over them, last one first, leaves
      every text as it was. */
  lemma {:induction false} UndoRestores(s: Surface, run: seq<Op>, bks: seq<Op>)
    requires Typed(run) && Undoes(run, bks)
    ensures SameTexts(Play(s, run + bks), s)
    decreases |run|
  {
    if run != [] {
      var first, rest := run[0], run[1..];
      var bk, restBks := bks[|bks| - 1], bks[..|bks| - 1];
      UndoesTail(run, bks);
      UndoRestores(ApplyOp(s, first), rest, restBks);
      PlayAround(s, run, bks);
      EraseTyped(s, Play(ApplyOp(s, first), rest + restBks), first, bk);
    }
  }

  /** Undoing all but the first character typed takes all but the last backspace. */
  lemma UndoesTail(run: seq<Op>, bks: seq<Op>)
    requires Typed(run) && Undoes(run, bks) && run != []
    ensures Typed(run[1..]) && Undoes(run[1..], bks[..|bks| - 1])
    ensures run[0].letter.Ch? && bks[|bks| - 1].letter == Bkspc && bks[|bks| - 1].ele == run[0].ele
  {
    var rest, restBks := run[1..], bks[..|bks| - 1];
    assert forall k :: 0 <= k < |rest| ==> rest[k] == run[k + 1];
    assert forall j :: 0 <= j < |rest| ==> restBks[j] == bks[j] && rest[|rest| - 1 - j] == run[|run| - 1 - j];
  }

  /** Playing a character, a middle part and a backspace, one after the other. */
  lemma PlayAround(s: Surface, run: seq<Op>, bks: seq<Op>)
    requires run != [] && bks != []
    ensures Play(s, run + bks) == ApplyOp(Play(ApplyOp(s, run[0]), run[1..] + bks[..|bks| - 1]), bks[|bks| - 1])
  {
    var first, rest := run[0], run[1..];
    var bk, restBks := bks[|bks| - 1], bks[..|bks| - 1];
    var mid := rest + restBks;
    assert run == [first] + rest;
    assert bks == restBks + [bk];
    assert run + bks == ([first] + mid) + [bk];
    PlayConcat(s, [first], mid);
    PlayConcat(s, [first] + mid, [bk]);
    PlaySingle(s, first);
    PlaySingle(Play(s, [first] + mid), bk);
  }

  lemma PlaySingle(s: Surface, op: Op)
    ensures Play(s, [op]) == ApplyOp(s, op)
  {
    assert [op][..0] == [];
  }

  /** Typed characters that are backspaced over right away can be cut out of a
      script without changing what it leaves on any node. */
  lemma PlayUndone(s: Surface, pre: seq<Op>, run: seq<Op>, bks: seq<Op>, rest: seq<Op>)
    requires Typed(run) && Undoes(run, bks)
    ensures SameTexts(Play(s, pre + (run + bks) + rest), Play(s, pre + rest))
  {
    var before := Play(s, pre);
    UndoRestores(before, run, bks);
    PlayConcat(s, pre, run + bks);
    PlayConcat(s, pre + (run + bks), rest);
    PlayConcat(s, pre, rest);
    PlaySameTexts(Play(before, run + bks), before, rest);
  }
}
