/** `TyperExecutable`: compares the hidden container's content with the markup
    already typed and builds the letter script that turns one into the other,
    then gives it human delays and occasional typos. */
module Executable {
  import opened Wrappers
  import opened Slices
  import opened Nodes
  import opened WordDiff
  import opened NodesDiff
  import opened Script
  import opened Delays
  import opened Bursts

  /** `execContainer.cloneNode(true).childNodes`: copies equal to the children,
      each a new node, given the identities `base`, `base + 1`, ... */
  function Clones(nodes: seq<Node>, base: nat): (r: seq<Node>)
    ensures |r| == |nodes|
    ensures forall k :: 0 <= k < |r| ==> r[k].id == base + k && IsEqualNode(r[k], nodes[k])
  {
    seq(|nodes|, k requires 0 <= k < |nodes| => nodes[k].(id := base + k))
  }

  /** The clones after `node.textContent = ""`: same nodes and shells, no text. */
  function Cleared(nodes: seq<Node>): (r: seq<Node>)
    ensures |r| == |nodes|
    ensures forall k :: 0 <= k < |r| ==> r[k].id == nodes[k].id && r[k].shell == nodes[k].shell && r[k].text == ""
  {
    seq(|nodes|, k requires 0 <= k < |nodes| => nodes[k].(text := ""))
  }

  /** The script `run` returns: the assembled difference of the clones with fresh
      identities from `base` against the typed markup, through the delay pass
      and the corrected typo pass. */
  function ScriptFor(container: seq<Node>, typed: seq<Node>, base: nat, rand: nat -> real): seq<Op>
    requires Uniform(rand)
  {
    GuardedBurstPass(DelayPass(Assemble(GetNodesDifference(Clones(container, base), typed))), rand)
  }

  /** Changing the delays of one letter is changing its delay. */
  lemma OneDelay(ls: seq<Op>, i: nat, mult: nat)
    requires i < |ls|
    ensures ChangeDelays(ls, i, 1, mult) == ChangeDelay(ls, i, mult)
  {
  }

  /** One turn of the loop of `injectDelays` in its source form: the backspace's
      own 0.6, then the rule's multiplier over its span. */
  lemma DelayTurn(m: seq<Letter>, before: seq<Op>, ls1: seq<Op>, i: nat, mult: nat, span: nat)
    requires i < |m| && |m| + 1 == |before|
    requires ls1 == if m[i] == Bkspc then ChangeDelay(before, i, BkspcMultiplier) else before
    requires DelayRule(m, i) == (mult, span)
    requires i + span <= |m|
    ensures DelayStep(m, before, i) == (ChangeDelays(ls1, i, span, mult), i + span)
    ensures span == 1 ==> ChangeDelays(ls1, i, span, mult) == ChangeDelay(ls1, i, mult)
  {
  }

  class TyperExecutable {
    /** The children of the hidden container holding the target content. */
    const execContainer: seq<Node>
    /** The markup already typed, in container order. */
    const typedMarkup: seq<Node>
    /** The letter script under construction. */
    var letters: seq<Op>

    constructor(container: seq<Node>, typedMarkup: seq<Node>)
      ensures execContainer == container && this.typedMarkup == typedMarkup && letters == []
    {
      execContainer := container;
      this.typedMarkup := typedMarkup;
      letters := [];
    }

    /** `getWordDifference(cmpWith, cmpTo)`: the index loop with its early returns. */
    method WordDifference(cmpWith: string, cmpTo: string) returns (dels: string, adds: string)
      ensures WordDiff(dels, adds) == GetWordDifference(cmpWith, cmpTo)
    {
      var i := 0;
      while i < |cmpWith|
        invariant i <= |cmpWith| && i <= |cmpTo|
        invariant cmpWith[..i] == cmpTo[..i]
        invariant DiffFrom(cmpWith, cmpTo, i) == GetWordDifference(cmpWith, cmpTo)
      {
        if i == |cmpTo| {
          return "", cmpWith[i..];
        }
        if cmpWith[i] != cmpTo[i] {
          return cmpTo[i..], cmpWith[i..];
        }
        PrefixGrows(cmpWith, cmpTo, i);
        i := i + 1;
      }
      return cmpTo[|cmpWith|..], "";
    }

    /** `getNodesDifference(cmpWith, cmpTo)`: the index loop over the new nodes,
        stopping at the first pair that differs. */
    method NodesDifference(cmpWith: seq<Node>, cmpTo: seq<Node>) returns (d: NodeDifference)
      ensures d == GetNodesDifference(cmpWith, cmpTo)
    {
      var i := 0;
      while i < |cmpWith|
        invariant i <= |cmpWith| && i <= |cmpTo|
        invariant forall k :: 0 <= k < i ==> IsEqualNode(cmpWith[k], cmpTo[k])
        invariant ScanFrom(cmpWith, cmpTo, i) == GetNodesDifference(cmpWith, cmpTo)
      {
        if i == |cmpTo| {
          return NodeDifference([], cmpWith[i..], None);
        }
        if IsEqualNode(cmpWith[i], cmpTo[i]) {
          i := i + 1;
          continue;
        }
        if IsLooselyEqualNodes(cmpWith[i], cmpTo[i]) {
          var dels, adds := WordDifference(cmpWith[i].text, cmpTo[i].text);
          return NodeDifference(cmpTo[i + 1..], cmpWith[i + 1..], Some(LooselyEqualNodeDiff(cmpTo[i], dels, adds)));
        }
        return NodeDifference(cmpTo[i..], cmpWith[i..], None);
      }
      return NodeDifference(cmpTo[|cmpWith|..], [], None);
    }

    /** The closure `changeDelay` of `injectDelays`: `mutatable[index - 1]` is
        script operation `index`. */
    method ChangeDelayAt(index: nat, multiplier: nat)
      requires index < |letters|
      modifies this
      ensures letters == ChangeDelay(old(letters), index, multiplier)
    {
      if index != 0 {
        letters := letters[index := letters[index].(nextDelay := DelayOf(multiplier))];
      }
    }

    /** `changeDelay` on the `n` letters of a matched phrase, from index `i` on. */
    method ChangeDelaysAt(i: nat, n: nat, multiplier: nat)
      requires i + n <= |letters|
      modifies this
      ensures letters == ChangeDelays(old(letters), i, n, multiplier)
    {
      for j := 0 to n
        invariant |letters| == |old(letters)|
        invariant letters == ChangeDelays(old(letters), i, j, multiplier)
      {
        ChangeDelayAt(i + j, multiplier);
      }
    }

    /** The closure `searchPhrases`: on the first phrase the letters from `i` on
        spell, its letters get `multiplier`, and `next` is the index of its last
        letter; otherwise nothing changes. */
    method SearchPhrases(m: seq<Letter>, i: nat, phrases: seq<Phrase>, multiplier: nat)
      returns (skip: bool, next: nat)
      requires i < |m| && |m| + 1 == |letters|
      modifies this
      ensures skip == MatchPhrase(m, i, phrases).Some?
      ensures skip ==> letters == ChangeDelays(old(letters), i, MatchPhrase(m, i, phrases).value, multiplier)
      ensures skip ==> next + 1 == i + MatchPhrase(m, i, phrases).value
      ensures !skip ==> letters == old(letters) && next == i
    {
      skip, next := false, i;
      var q := 0;
      while q < |phrases|
        invariant q <= |phrases|
        invariant MatchPhrase(m, i, phrases) == MatchPhrase(m, i, phrases[q..])
        invariant letters == old(letters)
      {
        assert phrases[q..][1..] == phrases[q + 1..];
        var phrase := phrases[q];
        if |m| - i >= |phrase| {
          var trunced := m[i..i + |phrase|];
          if phrase == Join(trunced) {
            assert MatchPhrase(m, i, phrases) == Some(|phrase|);
            ChangeDelaysAt(i, |phrase|, multiplier);
            return true, i + |phrase| - 1;
          }
        }
        q := q + 1;
      }
    }

    /** One turn of the loop of `injectDelays` at trimmed index `i`: a
        backspace's own 0.6, then the first rule that applies, in the source's
        order; `next` is the index the loop goes on from. */
    method DelayTurnAt(mutLetters: seq<Letter>, i: nat) returns (next: nat)
      requires i < |mutLetters| && |mutLetters| + 1 == |letters|
      modifies this
      ensures (letters, next) == DelayStep(mutLetters, old(letters), i)
    {
      if mutLetters[i] == Bkspc {
        ChangeDelayAt(i, BkspcMultiplier);
      }
      ghost var ls1 := letters;
      var mult, span := RuleAt(mutLetters, i);
      DelayTurn(mutLetters, old(letters), ls1, i, mult, span);
      return i + span;
    }

    /** The first rule that applies at `i`, in the source's order, applied:
        punctuation, the short phrases, the long phrases, then the rest. */
    method RuleAt(m: seq<Letter>, i: nat) returns (mult: nat, span: nat)
      requires i < |m| && |m| + 1 == |letters|
      modifies this
      ensures (mult, span) == DelayRule(m, i) && i + span <= |m|
      ensures letters == ChangeDelays(old(letters), i, span, mult)
    {
      if LetterString(m[i]) in Puncs {
        ChangeDelayAt(i, 12);
        OneDelay(old(letters), i, 12);
        return 12, 1;
      }
      var skip, last := SearchPhrases(m, i, ShortPhrases, 7);
      if skip {
        DelayRuleShape(m, i);
        return 7, last + 1 - i;
      }
      skip, last := SearchPhrases(m, i, LongPhrases, 14);
      if skip {
        DelayRuleShape(m, i);
        return 14, last + 1 - i;
      }
      mult := PlainRule(m, i);
      ChangeDelayAt(i, mult);
      OneDelay(old(letters), i, mult);
      span := 1;
    }

    /** The rules after the phrase searches, for a letter that is not
        punctuation and starts no phrase: "" 2.5, uppercase 1.8, space 0.7,
        near a space 0.8, otherwise 1. */
    method PlainRule(m: seq<Letter>, i: nat) returns (mult: nat)
      requires i < |m|
      requires LetterString(m[i]) !in Puncs
      requires MatchPhrase(m, i, ShortPhrases).None? && MatchPhrase(m, i, LongPhrases).None?
      ensures DelayRule(m, i) == (mult, 1)
    {
      var letter := m[i];
      mult := 10;
      if letter == Empty {
        mult := 25;
      } else if LetterString(letter) == ToUpperCase(LetterString(letter)) {
        mult := 18;
      } else if letter == Ch(' ') {
        mult := 7;
      } else if i >= 3 && Ch(' ') in JsSlice(m, i - 4, i) {
        mult := 8;
      }
    }

    /** `injectDelays`: the pass of `DelayPass`. */
    method InjectDelays()
      modifies this
      ensures letters == DelayPass(old(letters))
    {
      var mutLetters := MutLetters(letters);
      var i := 0;
      while i < |mutLetters|
        invariant |letters| == |old(letters)| && i <= |mutLetters|
        invariant |old(letters)| == 0 ==> letters == old(letters)
        invariant |old(letters)| > 0 ==> |mutLetters| + 1 == |letters|
        invariant |old(letters)| > 0 ==> DelayScan(mutLetters, letters, i) == DelayPass(old(letters))
        decreases |mutLetters| - i
      {
        DelayStepShape(mutLetters, letters, i);
        i := DelayTurnAt(mutLetters, i);
      }
    }

    /** The closure `addMistake(startI, endI)`, drawing the kind and, for a
        replacement, the letter; `taken` is the number of draws. */
    method AddMistakeAt(startI: nat, endI: nat, rand: nat -> real, d: nat) returns (taken: nat)
      requires Uniform(rand)
      requires startI <= endI < |letters|
      modifies this
      ensures letters == AddMistake(old(letters), startI, endI, rand(d), rand(d + 1))
      ensures taken == if SwapChosen(rand(d), startI, endI) then 1 else 2
    {
      if (rand(d) * 2.0).Floor == 0 && startI != endI {
        var firstLetter := letters[startI].letter;
        letters := letters[startI := letters[startI].(letter := letters[startI + 1].letter)];
        letters := letters[startI + 1 := letters[startI + 1].(letter := firstLetter)];
        taken := 1;
      } else {
        letters := letters[startI := letters[startI].(letter := Ch(RandomLetter(rand(d + 1))))];
        taken := 2;
      }
    }

    /** The first splice loop: `contLen` backspaces right after `i`, the `j`-th
        on the node of `letters[i - j]`. */
    method SpliceBackspaces(i: nat, contLen: nat)
      requires contLen <= i < |letters|
      modifies this
      ensures letters == old(letters)[..i + 1] + Backspaces(old(letters), i, contLen) + old(letters)[i + 1..]
    {
      var j := 0;
      while j < contLen
        invariant j <= contLen
        invariant letters == old(letters)[..i + 1] + Backspaces(old(letters), i, j) + old(letters)[i + 1..]
      {
        assert Backspaces(old(letters), i, j + 1) == Backspaces(old(letters), i, j) + [Op(Bkspc, old(letters)[i - j].ele, 0)];
        letters := letters[..i + j + 1] + [Op(Bkspc, letters[i - j].ele, 0)] + letters[i + j + 1..];
        j := j + 1;
      }
    }

    /** The second splice loop: copies of `letters[i]`, `letters[i - 1]`, ... each
        inserted right after the backspaces, which leaves the run in order. */
    method SpliceCopies(i: nat, contLen: nat, ghost ls: seq<Op>)
      requires 1 <= contLen <= i < |ls|
      requires letters == ls[..i + 1] + Backspaces(ls, i, contLen) + ls[i + 1..]
      modifies this
      ensures letters == Splice(ls, i, contLen)
    {
      var j := 0;
      while j <= contLen - 1
        invariant j <= contLen
        invariant letters == ls[..i + 1] + Backspaces(ls, i, contLen) + ls[i - j + 1..i + 1] + ls[i + 1..]
      {
        assert ls[i - j..i + 1] == [ls[i - j]] + ls[i - j + 1..i + 1];
        letters := letters[..i + contLen + 1] + [letters[i - j]] + letters[i + contLen + 1..];
        j := j + 1;
      }
    }

    /** The backspace slow-down: `changeDelay` at `i + j + 1` for each `j < n`.
        In this pass the index is never 0 and writes `letters[i + j]`. */
    method SlowDownRun(i: nat, n: nat)
      requires i + n <= |letters|
      modifies this
      ensures letters == SlowDown(old(letters), i, n)
    {
      var j := 0;
      while j < n
        invariant j <= n && |letters| == |old(letters)|
        invariant letters == SlowDown(old(letters), i, j)
      {
        letters := letters[i + j := letters[i + j].(nextDelay := DelayOf(BkspcMultiplier))];
        j := j + 1;
      }
    }

    /** The body of one burst at `i` over `contLen` operations, as the source
        performs it: the result is the layout of `BurstAt`. */
    method Burst(i: nat, contLen: nat, rand: nat -> real, d: nat) returns (taken: nat)
      requires Uniform(rand)
      requires 1 <= contLen <= i < |letters|
      modifies this
      ensures letters == BurstAt(old(letters), i, contLen, rand(d), rand(d + 1))
      ensures taken == if SwapChosen(rand(d), i - (contLen - 1), i) then 1 else 2
    {
      var toContinueDelay := letters[i - (contLen - 1)].nextDelay;
      SpliceBackspaces(i, contLen);
      SpliceCopies(i, contLen, old(letters));
      SlowDownRun(i, contLen);
      taken := AddMistakeAt(i - (contLen - 1), i, rand, d);
      letters := letters[i + contLen := letters[i + contLen].(nextDelay := toContinueDelay)];
      letters := letters[i := letters[i].(nextDelay := letters[i].nextDelay + Penalty)];
      BurstStepsAgree(old(letters), i, contLen, rand(d), rand(d + 1));
    }

    /** The clamps of `contLen` on a trigger: no further back than index 0, and
        not into the backspaces of the last burst. */
    method ClampRun(contLen: nat, i: nat, lastBkspcI: Option<nat>) returns (c: nat)
      requires Min <= contLen < Max && Min <= i
      requires lastBkspcI.Some? ==> lastBkspcI.value + 3 <= i
      ensures c == ClampedContLen(contLen, i, lastBkspcI)
    {
      var k: int := contLen;
      if i < k {
        k := i;
      }
      match lastBkspcI {
        case Some(last) =>
          if last >= i - (k - 1) {
            k := i - last - 1;
          }
        case None =>
      }
      c := k;
    }

    /** One iteration of the loop of `injectBkspcs` at `i`, up to the loop's own
        `i++`: draw `contLen` and the trigger and, on a trigger, clamp `contLen`
        and, when the run only types characters, burst and jump past the copy
        of the run. */
    method BurstTurnAt(rand: nat -> real, i: nat, lastBkspcI: Option<nat>, draws: nat)
      returns (i': nat, lastBkspcI': Option<nat>, draws': nat)
      requires Uniform(rand)
      requires Resumable(Scan(letters, i, lastBkspcI, draws)) && i < |letters|
      modifies this
      ensures Scan(letters, i' + 1, lastBkspcI', draws') == GuardedBurstStep(Scan(old(letters), i, lastBkspcI, draws), rand)
    {
      ghost var st := Scan(letters, i, lastBkspcI, draws);
      var contLen := ContLenDraw(rand(draws));
      if rand(draws + 1) < 1.0 / 40.0 {
        var c := ClampRun(contLen, i, lastBkspcI);
        assert c == RunLength(st, rand);
        if Typed(letters[i - (c - 1)..i + 1]) {
          var d := draws + 2;
          var taken := Burst(i, c, rand, d);
          i', lastBkspcI', draws' := i + c * 2 + Min, Some(c + i), d + taken;
          GuardedTriggeredStep(rand, old(letters), i, lastBkspcI, draws, c, d, Scan(letters, i' + 1, lastBkspcI', draws'), taken);
          return;
        }
      }
      GuardedPasses(st, rand);
      return i, lastBkspcI, draws + 2;
    }

    /** `injectBkspcs`, corrected to burst only over runs that type characters:
        the pass of `GuardedBurstPass`, the `k`-th call of `Math.random()` being
        `rand(k)`. The pass as written is `BurstPass`. */
    method InjectBkspcs(rand: nat -> real)
      requires Uniform(rand)
      modifies this
      ensures letters == GuardedBurstPass(old(letters), rand)
    {
      var lastBkspcI: Option<nat> := None;
      var draws: nat := 0;
      var i: nat := Min;
      while i < |letters|
        invariant Resumable(Scan(letters, i, lastBkspcI, draws))
        invariant GuardedBurstScan(Scan(letters, i, lastBkspcI, draws), rand) == GuardedBurstPass(old(letters), rand)
        decreases |letters| - i
      {
        i, lastBkspcI, draws := BurstTurnAt(rand, i, lastBkspcI, draws);
        i := i + 1;
      }
    }

    /** Empties the text of every clone, as `run` does before the passes. */
    method ClearTexts(nodes: seq<Node>) returns (cleared: seq<Node>)
      ensures cleared == Cleared(nodes)
    {
      cleared := nodes;
      for k := 0 to |nodes|
        invariant |cleared| == |nodes|
        invariant forall t :: 0 <= t < |nodes| ==> cleared[t] == if t < k then nodes[t].(text := "") else nodes[t]
      {
        cleared := cleared[k := cleared[k].(text := "")];
      }
    }

    /** `run`: the difference of a fresh clone of the container against the typed
        markup, the reversed backspace half before the typed half, the clones'
        texts cleared (they are typed in afterwards), then both passes. Returns
        the script and the cleared clones, which the script's added nodes are. */
    method Run(rand: nat -> real, cloneBase: nat) returns (script: seq<Op>, cmpWith: seq<Node>)
      requires Uniform(rand)
      modifies this
      ensures script == letters == ScriptFor(execContainer, typedMarkup, cloneBase, rand)
      ensures cmpWith == Cleared(Clones(execContainer, cloneBase))
    {
      cmpWith := Clones(execContainer, cloneBase);
      var cmpTo := typedMarkup;
      var nodesDiff := NodesDifference(cmpWith, cmpTo);
      var bkspcsPartialNode: Option<PartialNode> := None;
      if nodesDiff.looselyEqualNodeDiff.Some? {
        bkspcsPartialNode := Some(PartialNode(nodesDiff.looselyEqualNodeDiff.value.ele, nodesDiff.looselyEqualNodeDiff.value.dels));
      }
      assert bkspcsPartialNode == BkspcsPartialNode(nodesDiff);
      var bkspcs := NodesToBkspcs(nodesDiff.delNodes, bkspcsPartialNode);
      var lettersPartialNode: Option<PartialNode> := None;
      if nodesDiff.looselyEqualNodeDiff.Some? {
        lettersPartialNode := Some(PartialNode(nodesDiff.looselyEqualNodeDiff.value.ele, nodesDiff.looselyEqualNodeDiff.value.adds));
      }
      assert lettersPartialNode == LettersPartialNode(nodesDiff);
      letters := NodesToLetters(nodesDiff.addNodes, lettersPartialNode, None);
      letters := Reverse(bkspcs) + letters;
      assert letters == Assemble(nodesDiff);
      cmpWith := ClearTexts(cmpWith);
      InjectDelays();
      InjectBkspcs(rand);
      script := letters;
    }
  }
}
