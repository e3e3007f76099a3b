/** `Type`: the player. It asks `TyperExecutable` for a script that turns the
    typed markup into the hidden container's content, then plays it one
    operation per timer callback, moving each node it touches in front of the
    cursor, and settles the cursor when the script is done. */
module Player {
  import opened Nodes
  import opened NodesDiff
  import opened Script
  import opened Slices
  import opened Playback
  import opened Bursts
  import opened Executable
  import opened RoundTrip
  import opened Footprint
  import opened Children

  /** `cursorType`: the display flags of the cursor. */
  class Cursor {
    var hidden: bool
    var full: bool
    var blink: bool
    var stay: bool

    constructor(hidden: bool, full: bool, blink: bool, stay: bool)
      ensures this.hidden == hidden && this.full == full && this.blink == blink && this.stay == stay
    {
      this.hidden := hidden;
      this.full := full;
      this.blink := blink;
      this.stay := stay;
    }
  }

  /** The delay handed to `setTimeout` before the first operation: 150 ms, scaled. */
  function StartDelay(delayMultiplier: real): real
  {
    150.0 * delayMultiplier
  }

  /** The delay handed to `setTimeout` after an operation. */
  function TimerDelay(op: Op, delayMultiplier: real): real
  {
    (op.nextDelay as real) * delayMultiplier
  }

  /** The delays handed to `setTimeout` for the script's operations, in order. */
  function TimerDelays(ops: seq<Op>, delayMultiplier: real): (r: seq<real>)
    ensures |r| == |ops|
    ensures forall k :: 0 <= k < |ops| ==> r[k] == TimerDelay(ops[k], delayMultiplier)
  {
    if ops == [] then []
    else TimerDelays(ops[..|ops| - 1], delayMultiplier) + [TimerDelay(ops[|ops| - 1], delayMultiplier)]
  }

  /** The script has no operation that types: the invisible container is not
      refreshed while playing it. */
  predicate OnlyBackspaces(ops: seq<Op>)
  {
    forall k :: 0 <= k < |ops| ==> ops[k].letter == Bkspc
  }

  /** The shells of the nodes, by identity. */
  function ShellsOf(nodes: seq<Node>): (r: map<NodeId, nat>)
    ensures forall x :: x in r ==> HasId(nodes, x)
    ensures forall k :: 0 <= k < |nodes| ==> nodes[k].id in r
  {
    if nodes == [] then map[]
    else ShellsOf(nodes[..|nodes| - 1])[nodes[|nodes| - 1].id := nodes[|nodes| - 1].shell]
  }

  /** The texts of the nodes, by identity. */
  function TextsOf(nodes: seq<Node>): (r: Surface)
    ensures forall x :: x in r ==> HasId(nodes, x)
    ensures forall k :: 0 <= k < |nodes| ==> nodes[k].id in r
    ensures (forall k :: 0 <= k < |nodes| ==> nodes[k].text == "") ==> forall x :: x in r ==> r[x] == ""
  {
    if nodes == [] then map[]
    else TextsOf(nodes[..|nodes| - 1])[nodes[|nodes| - 1].id := nodes[|nodes| - 1].text]
  }

  /** The nodes with the given identities, with their shells and texts. */
  function MarkupOf(ids: seq<NodeId>, shells: map<NodeId, nat>, texts: Surface): (r: seq<Node>)
    requires forall x :: x in ids ==> x in shells
    ensures |r| == |ids|
    ensures forall k :: 0 <= k < |r| ==>
      r[k].id == ids[k] && r[k].shell == shells[ids[k]] && r[k].text == TextOf(texts, ids[k])
  {
    seq(|ids|, k requires 0 <= k < |ids| => Node(ids[k], shells[ids[k]], TextOf(texts, ids[k])))
  }

  /** The cleared clones cover the identities from `base` on, one per node. */
  lemma ClonesOwned(content: seq<Node>, base: nat)
    ensures forall x :: base <= x < base + |content| ==> x in ShellsOf(Cleared(Clones(content, base)))
  {
    var cmpWith := Cleared(Clones(content, base));
    forall x | base <= x < base + |content| ensures x in ShellsOf(cmpWith) {
      assert cmpWith[x - base].id == x;
    }
  }

  /** The clones and the markup are owned once their identities are. */
  lemma IdsOwned(content: seq<Node>, markup: seq<Node>, base: nat, shells: map<NodeId, nat>)
    requires forall k :: 0 <= k < |markup| ==> markup[k].id in shells
    requires forall x :: base <= x < base + |content| ==> x in shells
    ensures Ids(Clones(content, base)) + Ids(markup) <= shells.Keys
  {
    var clones := Clones(content, base);
    forall x | x in Ids(clones) ensures x in shells {
      var k :| 0 <= k < |clones| && clones[k].id == x;
    }
    forall x | x in Ids(markup) ensures x in shells {
      var k :| 0 <= k < |markup| && markup[k].id == x;
    }
  }

  /** Every operation of the script of `run` is on an owned node once the
      clones are owned. */
  lemma ScriptInShells(content: seq<Node>, markup: seq<Node>, base: nat, rand: nat -> real, shells: map<NodeId, nat>)
    requires Uniform(rand)
    requires forall k :: 0 <= k < |markup| ==> markup[k].id in shells
    requires forall x :: base <= x < base + |content| ==> x in shells
    ensures var script := ScriptFor(content, markup, base, rand);
      forall k :: 0 <= k < |script| ==> script[k].ele in shells
  {
    var script := ScriptFor(content, markup, base, rand);
    var ids := Ids(Clones(content, base)) + Ids(markup);
    ScriptForTouches(content, markup, base, rand);
    IdsOwned(content, markup, base, shells);
    forall k | 0 <= k < |script| ensures script[k].ele in shells {
      assert script[k].ele in ids;
    }
  }

  /** One more operation of the script, on the texts. */
  lemma PrefixPlay(script: seq<Op>, i: nat, s: Surface)
    requires i < |script|
    ensures Play(s, script[..i + 1]) == ApplyOp(Play(s, script[..i]), script[i])
  {
    assert script[..i + 1][..i] == script[..i];
  }

  /** One more operation of the script, on the children. */
  lemma PrefixAttach(script: seq<Op>, i: nat, c: seq<NodeId>, ref: NodeId)
    requires i < |script|
    ensures AttachAll(c, script[..i + 1], ref) == InsertBefore(AttachAll(c, script[..i], ref), script[i].ele, ref)
  {
    assert script[..i + 1][..i] == script[..i];
  }

  /** One more operation of the script, on the delays. */
  lemma PrefixDelays(script: seq<Op>, i: nat, m: real)
    requires i < |script|
    ensures TimerDelays(script[..i + 1], m) == TimerDelays(script[..i], m) + [TimerDelay(script[i], m)]
  {
    assert script[..i + 1][..i] == script[..i];
  }

  /** The same, after the delays already scheduled. */
  lemma PrefixDelaysAfter(script: seq<Op>, i: nat, m: real, s0: seq<real>)
    requires i < |script|
    ensures s0 + TimerDelays(script[..i + 1], m) == s0 + TimerDelays(script[..i], m) + [TimerDelay(script[i], m)]
  {
    PrefixDelays(script, i, m);
    var d, x := TimerDelays(script[..i], m), TimerDelay(script[i], m);
    assert s0 + (d + [x]) == s0 + d + [x];
  }

  /** One more operation of the script, on whether it only erases. */
  lemma PrefixBackspaces(script: seq<Op>, i: nat)
    requires i < |script|
    ensures OnlyBackspaces(script[..i + 1]) == (OnlyBackspaces(script[..i]) && script[i].letter == Bkspc)
  {
    assert script[..i + 1][..i] == script[..i];
  }

  /** The player's state after the callbacks for `ops`, from the state
      (`t0`, `c0`, `s0`, `v0`, `n0`) before them: the texts are played, the
      nodes moved before the cursor, the delays scheduled, and the invisible
      container refreshed once the first operation that types came. */
  ghost predicate Progress(ops: seq<Op>, cursorEle: NodeId, m: real, content: seq<Node>,
                           t0: Surface, c0: seq<NodeId>, s0: seq<real>, v0: seq<Node>, n0: nat,
                           t: Surface, c: seq<NodeId>, s: seq<real>, v: seq<Node>, n: nat, first: bool)
  {
    && t == Play(t0, ops)
    && c == AttachAll(c0, ops, cursorEle)
    && s == s0 + TimerDelays(ops, m)
    && first == OnlyBackspaces(ops)
    && v == (if first then v0 else content)
    && n == n0 + (if first then 0 else 1)
  }

  /** One callback more. */
  lemma ProgressStep(script: seq<Op>, i: nat, cursorEle: NodeId, m: real, content: seq<Node>,
                     t0: Surface, c0: seq<NodeId>, s0: seq<real>, v0: seq<Node>, n0: nat,
                     t: Surface, c: seq<NodeId>, s: seq<real>, v: seq<Node>, n: nat, first: bool,
                     t': Surface, c': seq<NodeId>, s': seq<real>, v': seq<Node>, n': nat, first': bool)
    requires i < |script|
    requires Progress(script[..i], cursorEle, m, content, t0, c0, s0, v0, n0, t, c, s, v, n, first)
    requires t' == ApplyOp(t, script[i]) && c' == InsertBefore(c, script[i].ele, cursorEle)
    requires s' == s + [TimerDelay(script[i], m)]
    requires first' == (first && script[i].letter == Bkspc)
    requires v' == (if first && !first' then content else v)
    requires n' == n + (if first && !first' then 1 else 0)
    ensures Progress(script[..i + 1], cursorEle, m, content, t0, c0, s0, v0, n0, t', c', s', v', n', first')
  {
    PrefixPlay(script, i, t0);
    assert t' == Play(t0, script[..i + 1]);
    PrefixAttach(script, i, c0, cursorEle);
    assert c' == AttachAll(c0, script[..i + 1], cursorEle);
    PrefixDelaysAfter(script, i, m, s0);
    assert s' == s0 + TimerDelays(script[..i + 1], m);
    PrefixBackspaces(script, i);
    assert first' == OnlyBackspaces(script[..i + 1]);
  }

  /** Playing the script of `run` from fresh clones and the typed markup shows
      the content, whatever the draws. */
  lemma ContentShown(s: Surface, content: seq<Node>, markup: seq<Node>, base: nat, rand: nat -> real)
    requires Uniform(rand)
    requires Fresh(Clones(content, base), markup) && Showing(s, Clones(content, base), markup)
    ensures ShowsContent(Play(s, ScriptFor(content, markup, base, rand)), s, Clones(content, base), markup)
  {
    GuardedRoundTrip(s, Clones(content, base), markup, rand);
  }

  /** The children are distinct and all owned but the cursor. */
  predicate Arranged(container: seq<NodeId>, cursorEle: NodeId, shells: map<NodeId, nat>)
  {
    Distinct(container) && forall x :: x in container && x != cursorEle ==> x in shells
  }

  /** Besides, the cursor is the last child and not owned, and every owned node
      and the cursor have identities below `nextId`. */
  predicate Numbered(container: seq<NodeId>, cursorEle: NodeId, shells: map<NodeId, nat>, nextId: nat)
  {
    && Arranged(container, cursorEle, shells) && |container| > 0 && container[|container| - 1] == cursorEle
    && cursorEle !in shells && cursorEle < nextId
    && (forall x :: x in shells ==> x < nextId)
  }

  /** What the player shows: the visible children, the owned nodes' shells and
      texts, the invisible container's children, how often it was refreshed and
      the next free identity. */
  datatype Scene = Scene(container: seq<NodeId>, shells: map<NodeId, nat>, texts: Surface,
                         invisibleContainer: seq<Node>, refreshes: nat, nextId: nat)

  /** The typed markup of a scene: every child but the cursor, in order, with
      its shell and its current text. */
  function MarkupShown(s: Scene, cursorEle: NodeId): seq<Node>
    requires Arranged(s.container, cursorEle, s.shells)
  {
    MarkupOf(Without(s.container, cursorEle), s.shells, s.texts)
  }

  /** The script `run` plays to type `content` over the scene's markup. */
  function ScriptShown(s: Scene, content: seq<Node>, rand: nat -> real, cursorEle: NodeId): seq<Op>
    requires Uniform(rand) && Arranged(s.container, cursorEle, s.shells)
  {
    ScriptFor(content, MarkupShown(s, cursorEle), s.nextId, rand)
  }

  /** The scene once the cleared clones of `content`, numbered from `nextId`
      on, are owned. */
  function Adopted(s: Scene, content: seq<Node>): Scene
  {
    var cmpWith := Cleared(Clones(content, s.nextId));
    s.(shells := s.shells + ShellsOf(cmpWith), texts := s.texts + TextsOf(cmpWith),
       nextId := s.nextId + |content|)
  }

  /** The scene once the callbacks for `script` ran: the texts are played, the
      nodes moved before the cursor one by one, and the invisible container
      takes the content on the first operation that types. */
  function Played(s: Scene, script: seq<Op>, cursorEle: NodeId, content: seq<Node>): Scene
  {
    s.(texts := Play(s.texts, script), container := AttachAll(s.container, script, cursorEle),
       invisibleContainer := if OnlyBackspaces(script) then s.invisibleContainer else content,
       refreshes := s.refreshes + if OnlyBackspaces(script) then 0 else 1)
  }

  /** After the whole script the progress is the played scene. */
  lemma PlayedScene(s: Scene, script: seq<Op>, cursorEle: NodeId, m: real, content: seq<Node>, s0: seq<real>,
                    t: Surface, c: seq<NodeId>, sch: seq<real>, v: seq<Node>, n: nat, first: bool)
    requires Progress(script, cursorEle, m, content, s.texts, s.container, s0, s.invisibleContainer, s.refreshes,
                      t, c, sch, v, n, first)
    ensures s.(texts := t, container := c, invisibleContainer := v, refreshes := n) == Played(s, script, cursorEle, content)
    ensures sch == s0 + TimerDelays(script, m)
  {
  }

  /** The scene at the end of `run` on `content`. */
  function AfterTyping(s: Scene, content: seq<Node>, rand: nat -> real, cursorEle: NodeId): Scene
    requires Uniform(rand) && Arranged(s.container, cursorEle, s.shells)
  {
    Played(Adopted(s, content), ScriptShown(s, content, rand, cursorEle), cursorEle, content)
  }

  /** Reading the markup, adopting the clones and playing the script on them
      is typing the content. */
  lemma TypingComposes(before: Scene, mid: Scene, after: Scene, content: seq<Node>, markup: seq<Node>,
                       script: seq<Op>, rand: nat -> real, cursorEle: NodeId)
    requires Uniform(rand) && Arranged(before.container, cursorEle, before.shells)
    requires markup == MarkupShown(before, cursorEle)
    requires script == ScriptFor(content, markup, before.nextId, rand)
    requires mid == Adopted(before, content) && after == Played(mid, script, cursorEle, content)
    ensures script == ScriptShown(before, content, rand, cursorEle)
    ensures after == AfterTyping(before, content, rand, cursorEle)
  {
  }

  /** The cleared clones have the identities from `base` on, below `base + |content|`. */
  lemma ClonesFrom(content: seq<Node>, base: nat)
    ensures forall x :: x in ShellsOf(Cleared(Clones(content, base))) ==> base <= x < base + |content|
    ensures forall x :: x in TextsOf(Cleared(Clones(content, base))) ==> base <= x < base + |content|
  {
    var cmpWith := Cleared(Clones(content, base));
    forall x | x in ShellsOf(cmpWith) ensures base <= x < base + |content| {
      var j :| 0 <= j < |cmpWith| && cmpWith[j].id == x;
    }
    forall x | x in TextsOf(cmpWith) ensures base <= x < base + |content| {
      var j :| 0 <= j < |cmpWith| && cmpWith[j].id == x;
    }
  }

  /** Owning the cleared clones keeps a scene numbered: their identities are
      the next free ones. */
  lemma AdoptedNumbered(s: Scene, content: seq<Node>, cursorEle: NodeId)
    requires Numbered(s.container, cursorEle, s.shells, s.nextId)
    ensures var a := Adopted(s, content); Numbered(a.container, cursorEle, a.shells, a.nextId)
  {
    ClonesFrom(content, s.nextId);
    NumberedGrows(s.container, cursorEle, s.shells, s.nextId, ShellsOf(Cleared(Clones(content, s.nextId))), |content|);
  }

  /** Owning nodes with the next `n` free identities keeps the children numbered. */
  lemma NumberedGrows(container: seq<NodeId>, cursorEle: NodeId, shells: map<NodeId, nat>, nextId: nat,
                      added: map<NodeId, nat>, n: nat)
    requires Numbered(container, cursorEle, shells, nextId)
    requires forall x :: x in added ==> nextId <= x < nextId + n
    ensures Numbered(container, cursorEle, shells + added, nextId + n)
  {
    assert cursorEle !in added;
  }

  /** The clones and the typed markup of a numbered scene meet the round trip's
      assumptions once the cleared clones are owned. */
  lemma StartsFresh(s: Scene, content: seq<Node>, cursorEle: NodeId)
    requires Numbered(s.container, cursorEle, s.shells, s.nextId)
    ensures var clones, markup := Clones(content, s.nextId), MarkupShown(s, cursorEle);
      Fresh(clones, markup) && Showing(Adopted(s, content).texts, clones, markup)
  {
    var clones, markup := Clones(content, s.nextId), MarkupShown(s, cursorEle);
    var cmpWith := Cleared(clones);
    WithoutDistinct(s.container, cursorEle);
    ClonesFrom(content, s.nextId);
    var t := s.texts + TextsOf(cmpWith);
    forall k | 0 <= k < |markup| ensures TextOf(t, markup[k].id) == markup[k].text {
      var id := markup[k].id;
      assert id in Without(s.container, cursorEle);
      assert id < s.nextId && id !in TextsOf(cmpWith);
    }
    forall k | 0 <= k < |clones| ensures TextOf(t, clones[k].id) == "" {
      assert cmpWith[k].id == clones[k].id;
    }
  }

  /** At the end of `run` on a numbered scene the texts show the content,
      whatever the draws. */
  lemma TypingShowsContent(s: Scene, content: seq<Node>, rand: nat -> real, cursorEle: NodeId)
    requires Uniform(rand) && Numbered(s.container, cursorEle, s.shells, s.nextId)
    ensures ShowsContent(AfterTyping(s, content, rand, cursorEle).texts, Adopted(s, content).texts,
                         Clones(content, s.nextId), MarkupShown(s, cursorEle))
  {
    StartsFresh(s, content, cursorEle);
    ContentShown(Adopted(s, content).texts, content, MarkupShown(s, cursorEle), s.nextId, rand);
  }

  class Type {
    /** The children of the hidden container: the content to show. */
    const hiddenContainer: seq<Node>
    /** The children of the visible container, by identity, the cursor among them. */
    var container: seq<NodeId>
    /** The cursor element. */
    const cursorEle: NodeId
    /** The shell of every node the player owns, the cursor excepted. */
    var shells: map<NodeId, nat>
    /** The text of every node the player owns. */
    var texts: Surface
    /** The children of the invisible container that reserves the space. */
    var invisibleContainer: seq<Node>
    const delayMultiplier: real
    const cursor: Cursor
    /** The delays passed to `setTimeout`, in order, since the last
        `killRunOperations`. */
    var scheduled: seq<real>
    /** The identity the next cloned node receives. */
    var nextId: nat
    /** How often `updateInvisibleCont` ran. */
    ghost var refreshes: nat

    /** The children are distinct and all owned but the cursor. */
    ghost predicate Owned()
      reads this`container, this`shells
    {
      Arranged(container, cursorEle, shells)
    }

    /** The cursor is the last child, and every owned node and the cursor have
        identities below `nextId`. */
    ghost predicate Valid()
      reads this`container, this`shells, this`nextId
    {
      Numbered(container, cursorEle, shells, nextId)
    }

    /** The player's scene. */
    ghost function Shown(): Scene
      reads this`container, this`shells, this`texts, this`invisibleContainer, this`refreshes, this`nextId
    {
      Scene(container, shells, texts, invisibleContainer, refreshes, nextId)
    }

    /** A player whose visible container holds only the cursor. */
    constructor(hiddenContainer: seq<Node>, cursorEle: NodeId, delayMultiplier: real, cursor: Cursor)
      ensures Valid()
      ensures this.hiddenContainer == hiddenContainer && this.cursorEle == cursorEle
      ensures this.delayMultiplier == delayMultiplier && this.cursor == cursor
      ensures container == [cursorEle] && shells == map[] && texts == map[]
      ensures invisibleContainer == [] && scheduled == [] && refreshes == 0
    {
      this.hiddenContainer := hiddenContainer;
      this.cursorEle := cursorEle;
      this.delayMultiplier := delayMultiplier;
      this.cursor := cursor;
      container := [cursorEle];
      shells := map[];
      texts := map[];
      invisibleContainer := [];
      scheduled := [];
      nextId := cursorEle + 1;
      refreshes := 0;
    }

    /** The typed markup: every child of the container but the cursor, in order,
        each showing its current text. */
    function TypedMarkup(): (r: seq<Node>)
      requires Owned()
      reads this`container, this`shells, this`texts
      ensures forall k :: 0 <= k < |r| ==> r[k].id in shells && r[k].text == TextOf(texts, r[k].id)
    {
      MarkupOf(Without(container, cursorEle), shells, texts)
    }

    /** `getTypedMarkup`: the loop over the children that skips the cursor. */
    method GetTypedMarkup() returns (markup: seq<Node>)
      requires Owned()
      ensures markup == TypedMarkup()
    {
      markup := [];
      var nodes := container;
      for i := 0 to |nodes|
        invariant markup == MarkupOf(Without(nodes[..i], cursorEle), shells, texts)
      {
        assert nodes[..i + 1][..i] == nodes[..i];
        if nodes[i] != cursorEle {
          markup := markup + [Node(nodes[i], shells[nodes[i]], TextOf(texts, nodes[i]))];
        }
      }
      assert nodes[..|nodes|] == nodes;
    }

    /** `killRunOperations`: the pending timers are cancelled. */
    method KillRunOperations()
      modifies this`scheduled
      ensures scheduled == []
    {
      scheduled := [];
    }

    /** `complete`: after 450 ms the cursor hides, and a cursor that stays turns
        full and blinking. */
    method Complete()
      modifies this`scheduled, cursor
      ensures scheduled == old(scheduled) + [450.0]
      ensures cursor.hidden && cursor.stay == old(cursor.stay)
      ensures cursor.full == (old(cursor.stay) || old(cursor.full))
      ensures cursor.blink == (old(cursor.stay) || old(cursor.blink))
    {
      scheduled := scheduled + [450.0];
      cursor.hidden := true;
      if cursor.stay {
        cursor.full := true;
        cursor.blink := true;
      }
    }

    /** `updateInvisibleCont`: the invisible container takes the content. */
    method UpdateInvisibleCont()
      modifies this`invisibleContainer, this`refreshes
      ensures invisibleContainer == hiddenContainer && refreshes == old(refreshes) + 1
    {
      invisibleContainer := hiddenContainer;
      refreshes := refreshes + 1;
    }

    /** `container.insertBefore(ele, cursorEle)` on an owned node: the children
        stay distinct and owned, and the cursor stays last. */
    method MoveBeforeCursor(ele: NodeId)
      requires Valid() && ele in shells
      modifies this`container
      ensures Valid()
      ensures container == InsertBefore(old(container), ele, cursorEle)
    {
      InsertBeforeLastDistinct(container, ele, cursorEle);
      container := InsertBefore(container, ele, cursorEle);
    }

    /** One timer callback of `run` on the operation `nextType` returned: the node
        goes before the cursor, loses its last character or takes the letter,
        the invisible container is refreshed on the first operation that is not
        a backspace, and the next callback is scheduled after the operation's
        delay. */
    method TypeNext(op: Op, firstLetter: bool) returns (stillFirst: bool)
      requires Valid() && op.ele in shells
      modifies this`container, this`texts, this`invisibleContainer, this`refreshes, this`scheduled
      ensures Valid()
      ensures container == InsertBefore(old(container), op.ele, cursorEle)
      ensures texts == ApplyOp(old(texts), op)
      ensures stillFirst == (firstLetter && op.letter == Bkspc)
      ensures invisibleContainer == if firstLetter && !stillFirst then hiddenContainer else old(invisibleContainer)
      ensures refreshes == old(refreshes) + if firstLetter && !stillFirst then 1 else 0
      ensures scheduled == old(scheduled) + [TimerDelay(op, delayMultiplier)]
    {
      MoveBeforeCursor(op.ele);
      stillFirst := TypeLetter(op, firstLetter);
      scheduled := scheduled + [TimerDelay(op, delayMultiplier)];
    }

    /** The text step of the callback: the node loses its last character or takes
        the letter, and the first operation that is not a backspace refreshes the
        invisible container. */
    method TypeLetter(op: Op, firstLetter: bool) returns (stillFirst: bool)
      modifies this`texts, this`invisibleContainer, this`refreshes
      ensures texts == ApplyOp(old(texts), op)
      ensures stillFirst == (firstLetter && op.letter == Bkspc)
      ensures invisibleContainer == if firstLetter && !stillFirst then hiddenContainer else old(invisibleContainer)
      ensures refreshes == old(refreshes) + if firstLetter && !stillFirst then 1 else 0
    {
      var text := TextOf(texts, op.ele);
      stillFirst := firstLetter;
      if op.letter == Bkspc {
        texts := texts[op.ele := JsSlice(text, 0, -1)];
      } else {
        if firstLetter {
          stillFirst := false;
          UpdateInvisibleCont();
        }
        texts := texts[op.ele := text + LetterString(op.letter)];
      }
    }

    /** The callbacks of `run` one after the other, each operation in index
        order, until `nextType` finds no operation left. */
    method PlayScript(script: seq<Op>)
      requires Valid() && scheduled == []
      requires forall k :: 0 <= k < |script| ==> script[k].ele in shells
      modifies this`container, this`texts, this`invisibleContainer, this`refreshes, this`scheduled
      ensures Valid()
      ensures Shown() == Played(old(Shown()), script, cursorEle, hiddenContainer)
      ensures scheduled == [StartDelay(delayMultiplier)] + TimerDelays(script, delayMultiplier)
    {
      ghost var start := Shown();
      scheduled := [StartDelay(delayMultiplier)];
      ghost var t0, c0, s0, v0, n0 := texts, container, scheduled, invisibleContainer, refreshes;
      var letterI := 0;
      var firstLetter := true;
      assert script[..0] == [];
      while letterI < |script|
        invariant letterI <= |script|
        invariant Numbered(container, cursorEle, shells, nextId)
        invariant Progress(script[..letterI], cursorEle, delayMultiplier, hiddenContainer, t0, c0, s0, v0, n0,
                           texts, container, scheduled, invisibleContainer, refreshes, firstLetter)
      {
        ghost var t, c, s, v, n, first := texts, container, scheduled, invisibleContainer, refreshes, firstLetter;
        firstLetter := TypeNext(script[letterI], firstLetter);
        ProgressStep(script, letterI, cursorEle, delayMultiplier, hiddenContainer, t0, c0, s0, v0, n0,
                     t, c, s, v, n, first, texts, container, scheduled, invisibleContainer, refreshes, firstLetter);
        letterI := letterI + 1;
      }
      assert script[..|script|] == script;
      PlayedScene(start, script, cursorEle, delayMultiplier, hiddenContainer, s0,
                  texts, container, scheduled, invisibleContainer, refreshes, firstLetter);
    }

    /** The nodes `TyperExecutable.run` returned, cleared clones with the
        identities from `nextId` on, join the owned nodes. */
    method Adopt(cmpWith: seq<Node>)
      requires Valid() && cmpWith == Cleared(Clones(hiddenContainer, nextId))
      modifies this`shells, this`texts, this`nextId
      ensures Valid()
      ensures Shown() == Adopted(old(Shown()), hiddenContainer)
    {
      ghost var s0 := Scene(container, shells, texts, invisibleContainer, refreshes, nextId);
      AdoptedNumbered(s0, hiddenContainer, cursorEle);
      var base := nextId;
      shells, texts, nextId := shells + ShellsOf(cmpWith), texts + TextsOf(cmpWith), base + |hiddenContainer|;
      assert Shown() == Adopted(s0, hiddenContainer);
    }

    /** The part of `run` before the first timer: `TyperExecutable` computes the
        script for the typed markup, and the cleared clones it returns join the
        owned nodes, every node of the script now owned. */
    method Prepare(rand: nat -> real, content: seq<Node>, markup: seq<Node>, base: nat) returns (script: seq<Op>)
      requires Valid() && Uniform(rand)
      requires content == hiddenContainer && markup == TypedMarkup() && base == nextId
      modifies this`shells, this`texts, this`nextId
      ensures Valid()
      ensures script == ScriptFor(content, markup, base, rand)
      ensures Shown() == Adopted(old(Shown()), content)
      ensures forall k :: 0 <= k < |script| ==> script[k].ele in shells
    {
      var exec := new TyperExecutable(content, markup);
      var cmpWith;
      script, cmpWith := exec.Run(rand, base);
      Adopt(cmpWith);
      ClonesOwned(content, base);
      ScriptInShells(content, markup, base, rand, shells);
    }

    /** The start of `run` past the check for content: the typed markup is read
        and `TyperExecutable` builds the script over it, adopting its clones. */
    method PrepareTyped(rand: nat -> real) returns (script: seq<Op>)
      requires Valid() && Uniform(rand)
      modifies this`shells, this`texts, this`nextId
      ensures Valid()
      ensures script == ScriptFor(hiddenContainer, old(TypedMarkup()), old(nextId), rand)
      ensures Shown() == Adopted(old(Shown()), hiddenContainer)
      ensures forall k :: 0 <= k < |script| ==> script[k].ele in shells
    {
      var content := hiddenContainer;
      var markup := GetTypedMarkup();
      var base := nextId;
      script := Prepare(rand, content, markup, base);
    }

    /** The callbacks of `run` for the script, the last one settling the cursor. */
    method PlayTyped(script: seq<Op>)
      requires Valid() && scheduled == []
      requires forall k :: 0 <= k < |script| ==> script[k].ele in shells
      modifies this`container, this`texts, this`invisibleContainer, this`refreshes, this`scheduled, cursor
      ensures Valid()
      ensures Shown() == Played(old(Shown()), script, cursorEle, hiddenContainer)
      ensures scheduled == [StartDelay(delayMultiplier)] + TimerDelays(script, delayMultiplier) + [450.0]
      ensures cursor.hidden && cursor.stay == old(cursor.stay)
      ensures cursor.full == (old(cursor.stay) || old(cursor.full))
      ensures cursor.blink == (old(cursor.stay) || old(cursor.blink))
    {
      PlayScript(script);
      ghost var played := Shown();
      Complete();
      assert Shown() == played;
    }

    /** `run`: with no content the cursor just settles; otherwise the content is
        typed. */
    method Run(rand: nat -> real)
      requires Valid() && Uniform(rand)
      modifies this, cursor
      ensures Valid()
      ensures cursor.hidden && cursor.stay == old(cursor.stay)
      ensures cursor.full == (old(cursor.stay) || old(cursor.full))
      ensures cursor.blink == (old(cursor.stay) || old(cursor.blink))
      ensures |hiddenContainer| == 0 ==> Shown() == old(Shown()) && scheduled == [450.0]
      ensures |hiddenContainer| > 0 ==>
        && Shown() == AfterTyping(old(Shown()), hiddenContainer, rand, cursorEle)
        && scheduled == [StartDelay(delayMultiplier)]
                        + TimerDelays(ScriptShown(old(Shown()), hiddenContainer, rand, cursorEle), delayMultiplier)
                        + [450.0]
      ensures |hiddenContainer| > 0 ==>
        ShowsContent(texts, Adopted(old(Shown()), hiddenContainer).texts,
                     Clones(hiddenContainer, old(nextId)), MarkupShown(old(Shown()), cursorEle))
    {
      ghost var before := Shown();
      KillRunOperations();
      assert Shown() == before;
      if |hiddenContainer| == 0 {
        Complete();
        return;
      }
      ghost var markup := TypedMarkup();
      var script := PrepareTyped(rand);
      ghost var mid := Shown();
      PlayTyped(script);
      TypingComposes(before, mid, Shown(), hiddenContainer, markup, script, rand, cursorEle);
      TypingShowsContent(before, hiddenContainer, rand, cursorEle);
    }
  }
}
