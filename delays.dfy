/** `injectDelays`: the contextual cadence pass. It scans `mutLetters`, the letters
    of the script from index 1 on; `mutatable` shares its objects with the script,
    so a delay chosen for the letter at trimmed index `i` (script index `i + 1`)
    is written on script index `i`, and nothing is written for `i == 0`. */
module Delays {
  import opened Wrappers
  import opened Slices
  import opened Script

  const DftDelay: nat := 40

  /** Delay multipliers are kept in tenths: `bkspcDelay = .6` is 6, `1.2` is 12. */
  const BkspcMultiplier: nat := 6

  /** The punctuation list of `injectDelays`; only membership is ever asked of it. */
  const Puncs: set<string> := {
    ".", ",", "!", "?", ":", ";", "-", "\U{2013}", "\U{2014}",
    "(", ")", "[", "]", "{", "}", "'", "\"",
    "...", "/", "\\", "|", "_", "&", "@", "#",
    "%", "^", "~", "`", "*", "+", "=", "<", ">", "$"
  }

  /** The phrases `searchPhrases` looks for are short and non-empty. */
  type Phrase = s: string | 1 <= |s| <= 4 witness "a"

  const ShortPhrases: seq<Phrase> := ["and", "out", "is", "as"]
  const LongPhrases: seq<Phrase> := ["from", "in"]

  /** The delays the delay pass leaves on a script: 40 times 0.7, 0.8, 1, 1.2,
      1.4, 1.8 and 2.5. */
  const FinalDelays: set<nat> := {28, 32, 40, 48, 56, 72, 100}

  function DelayOf(multiplier: nat): nat
  {
    DftDelay * multiplier / 10
  }

  /** `toUpperCase`, for ASCII: a to z map to A to Z, every other character is
      taken to have no case. */
  function UpperChar(c: char): char
  {
    if 'a' <= c <= 'z' then (c as int - 32) as char else c
  }

  function ToUpperCase(s: string): string
  {
    seq(|s|, k requires 0 <= k < |s| => UpperChar(s[k]))
  }

  /** The letters of a window written out as one string. */
  function Join(ls: seq<Letter>): string
  {
    if ls == [] then "" else Join(ls[..|ls| - 1]) + LetterString(ls[|ls| - 1])
  }

  /** The letters of the script without its first operation. */
  function MutLetters(ls: seq<Op>): (m: seq<Letter>)
    ensures |ls| > 0 ==> |m| + 1 == |ls|
  {
    if |ls| == 0 then [] else seq(|ls| - 1, k requires 0 <= k < |ls| - 1 => ls[k + 1].letter)
  }

  /** `changeDelay(index, multiplier)`: sets `mutatable[index - 1]`, which is script
      index `index`, unless `index` is 0. */
  function ChangeDelay(ls: seq<Op>, index: nat, multiplier: nat): seq<Op>
    requires index < |ls|
  {
    if index != 0 then ls[index := ls[index].(nextDelay := DelayOf(multiplier))] else ls
  }

  /** `changeDelay` on the `n` letters of a matched phrase, from index `i` on. */
  function ChangeDelays(ls: seq<Op>, i: nat, n: nat, multiplier: nat): (r: seq<Op>)
    requires i + n <= |ls|
    ensures |r| == |ls|
    ensures forall k :: 0 <= k < |ls| ==>
      r[k] == (if i <= k < i + n && k != 0 then ls[k].(nextDelay := DelayOf(multiplier)) else ls[k])
  {
    if n == 0 then ls else ChangeDelay(ChangeDelays(ls, i, n - 1, multiplier), i + n - 1, multiplier)
  }

  /** A joined run of letters is at least as long as the string of any of them. */
  lemma {:induction false} JoinLength(ls: seq<Letter>, j: nat)
    requires j < |ls|
    ensures |Join(ls)| >= |LetterString(ls[j])|
  {
    if j < |ls| - 1 {
      JoinLength(ls[..|ls| - 1], j);
    }
  }

  /** The test inside the closure `searchPhrases`: the first phrase that the letters
      from `i` on spell out, by its length. A run starting with a backspace spells
      no phrase. */
  function MatchPhrase(m: seq<Letter>, i: nat, phrases: seq<Phrase>): (r: Option<nat>)
    requires i < |m|
    ensures r.Some? ==> 1 <= r.value && i + r.value <= |m|
    ensures m[i] == Bkspc ==> r.None?
  {
    if phrases == [] then None
    else
      var phrase := phrases[0];
      if |m| - i >= |phrase| && phrase == Join(m[i..i + |phrase|]) then
        JoinLength(m[i..i + |phrase|], 0);
        Some(|phrase|)
      else
        MatchPhrase(m, i, phrases[1..])
  }

  /** What one turn of the loop decides for trimmed index `i`, from the letters
      alone: the multiplier and how many letters it covers (a matched phrase's
      length, 1 otherwise). The checks run in the source's order; a backspace's
      own 0.6 is written before them, in `DelayStep`. */
  function DelayRule(m: seq<Letter>, i: nat): (nat, nat)
    requires i < |m|
  {
    var letter := m[i];
    if LetterString(letter) in Puncs then (12, 1)
    else if MatchPhrase(m, i, ShortPhrases).Some? then (7, MatchPhrase(m, i, ShortPhrases).value)
    else if MatchPhrase(m, i, LongPhrases).Some? then (14, MatchPhrase(m, i, LongPhrases).value)
    else if letter == Empty then (25, 1)
    else if LetterString(letter) == ToUpperCase(LetterString(letter)) then (18, 1)
    else if letter == Ch(' ') then (7, 1)
    else if i >= 3 && Ch(' ') in JsSlice(m, i - 4, i) then (8, 1)
    else (10, 1)
  }

  /** Every rule's delay is one of `FinalDelays`, and it covers letters that exist;
      a backspace's rule covers only itself. */
  lemma DelayRuleShape(m: seq<Letter>, i: nat)
    requires i < |m|
    ensures var (mult, span) := DelayRule(m, i);
      DelayOf(mult) in FinalDelays && 1 <= span && i + span <= |m| &&
      (m[i] == Bkspc ==> span == 1)
  {
    var (mult, span) := DelayRule(m, i);
    assert mult == 12 || mult == 7 || mult == 14 || mult == 25 || mult == 18 || mult == 8 || mult == 10;
    assert DelayOf(12) == 48 && DelayOf(7) == 28 && DelayOf(14) == 56 && DelayOf(25) == 100;
    assert DelayOf(18) == 72 && DelayOf(8) == 32 && DelayOf(10) == 40;
  }

  /** One turn of the loop of `injectDelays` at trimmed index `i`: the script after
      it and the next value of `i`. */
  function DelayStep(m: seq<Letter>, ls: seq<Op>, i: nat): (seq<Op>, nat)
    requires i < |m| && |m| + 1 == |ls|
  {
    var ls1 := if m[i] == Bkspc then ChangeDelay(ls, i, BkspcMultiplier) else ls;
    var (mult, span) := DelayRule(m, i);
    DelayRuleShape(m, i);
    (ChangeDelays(ls1, i, span, mult), i + span)
  }

  /** `r` differs from `ls` only in the delays of indices `lo` to `hi - 1`, and each
      of those but index 0 holds a value of `FinalDelays`. */
  predicate FinalOn(ls: seq<Op>, r: seq<Op>, lo: nat, hi: nat)
  {
    |r| == |ls| &&
    (forall k :: 0 <= k < |ls| ==> r[k].letter == ls[k].letter && r[k].ele == ls[k].ele) &&
    (forall k :: 0 <= k < |ls| && !(lo <= k < hi) ==> r[k] == ls[k]) &&
    (forall k :: lo <= k < hi && k < |r| && k != 0 ==> r[k].nextDelay in FinalDelays)
  }

  /** One turn writes only delays, only on the script indices it covers, and each
      of those (index 0 aside) ends with a value of `FinalDelays`: the 0.6 written
      for a backspace is always overwritten. */
  lemma DelayStepShape(m: seq<Letter>, ls: seq<Op>, i: nat)
    requires i < |m| && |m| + 1 == |ls|
    ensures i < DelayStep(m, ls, i).1 <= |m|
    ensures FinalOn(ls, DelayStep(m, ls, i).0, i, DelayStep(m, ls, i).1)
  {
    DelayRuleShape(m, i);
  }

  /** The loop of `injectDelays` from trimmed index `i` on. */
  function DelayScan(m: seq<Letter>, ls: seq<Op>, i: nat): (r: seq<Op>)
    requires i <= |m| && |m| + 1 == |ls|
    ensures |r| == |ls|
    ensures forall k :: 0 <= k < |ls| ==> r[k].letter == ls[k].letter && r[k].ele == ls[k].ele
    ensures forall k :: 0 <= k < i ==> r[k] == ls[k]
    ensures r[|m|] == ls[|m|]
    ensures forall k :: i <= k < |m| && k != 0 ==> r[k].nextDelay in FinalDelays
    decreases |m| - i
  {
    if i == |m| then ls
    else
      var (ls', next) := DelayStep(m, ls, i);
      DelayStepShape(m, ls, i);
      DelayScan(m, ls', next)
  }

  /** `injectDelays` on a whole script. */
  function DelayPass(ls: seq<Op>): (r: seq<Op>)
  {
    if |ls| == 0 then ls else DelayScan(MutLetters(ls), ls, 0)
  }

  /** The delay pass changes only delays: the length, every letter and every node
      are kept; the first and the last operation keep their delay; every other
      operation ends with a delay of `FinalDelays`. */
  lemma DelayPassShape(ls: seq<Op>)
    ensures var r := DelayPass(ls);
      |r| == |ls| &&
      (forall k :: 0 <= k < |ls| ==> r[k].letter == ls[k].letter && r[k].ele == ls[k].ele) &&
      (|ls| > 0 ==> r[0] == ls[0] && r[|ls| - 1] == ls[|ls| - 1]) &&
      (forall k :: 1 <= k < |ls| - 1 ==> r[k].nextDelay in FinalDelays)
  {
  }

  /** The joined string of a run starts with the first letter's character. */
  lemma {:induction false} JoinHead(ls: seq<Letter>, c: char)
    requires |ls| > 0 && ls[0] == Ch(c)
    ensures |Join(ls)| > 0 && Join(ls)[0] == c
  {
    if |ls| > 1 {
      JoinHead(ls[..|ls| - 1], c);
    }
  }

  /** A phrase whose first character differs from the letter at `i` is passed over. */
  lemma SkipsPhrase(m: seq<Letter>, i: nat, phrases: seq<Phrase>, c: char)
    requires i < |m| && m[i] == Ch(c) && phrases != [] && phrases[0][0] != c
    ensures MatchPhrase(m, i, phrases) == MatchPhrase(m, i, phrases[1..])
  {
    if |m| - i >= |phrases[0]| {
      JoinHead(m[i..i + |phrases[0]|], c);
    }
  }

  /** No phrase can start with a character that is not a lowercase letter. */
  lemma {:induction false} MatchPhraseNeedsLowercase(m: seq<Letter>, i: nat, phrases: seq<Phrase>, c: char)
    requires i < |m| && m[i] == Ch(c) && !('a' <= c <= 'z')
    requires forall k :: 0 <= k < |phrases| ==> 'a' <= phrases[k][0] <= 'z'
    ensures MatchPhrase(m, i, phrases).None?
  {
    if phrases != [] {
      SkipsPhrase(m, i, phrases, c);
      MatchPhraseNeedsLowercase(m, i, phrases[1..], c);
    }
  }

  /** The uppercase test at its face value: a space, a digit or any other
      character without case that is not punctuation gets 1.8, so the rule for a
      space that follows it (0.7) is never reached. */
  lemma CaselessGetsUppercaseDelay(m: seq<Letter>, i: nat, c: char)
    requires i < |m| && m[i] == Ch(c) && !('a' <= c <= 'z') && [c] !in Puncs
    ensures DelayRule(m, i) == (18, 1)
  {
    assert forall k :: 0 <= k < |ShortPhrases| ==> 'a' <= ShortPhrases[k][0] <= 'z';
    assert forall k :: 0 <= k < |LongPhrases| ==> 'a' <= LongPhrases[k][0] <= 'z';
    MatchPhraseNeedsLowercase(m, i, ShortPhrases, c);
    MatchPhraseNeedsLowercase(m, i, LongPhrases, c);
    assert ToUpperCase([c]) == [c];
  }

  /** A space is not punctuation and has no case, so it always gets 1.8: the
      space rule (0.7) is dead code. */
  lemma SpaceGetsUppercaseDelay(m: seq<Letter>, i: nat)
    requires i < |m| && m[i] == Ch(' ')
    ensures DelayRule(m, i) == (18, 1)
  {
    assert " " !in Puncs;
    CaselessGetsUppercaseDelay(m, i, ' ');
  }

  /** A backspace always ends with 0.8 or 1: the 0.6 written for it is replaced. */
  lemma BackspaceRule(m: seq<Letter>, i: nat)
    requires i < |m| && m[i] == Bkspc
    ensures DelayRule(m, i) == (8, 1) || DelayRule(m, i) == (10, 1)
  {
    assert "bkspc" !in Puncs;
    assert ToUpperCase("bkspc") == "BKSPC";
  }

  /** "is" spelt from `i` on is found among the phrases that start with it. */
  lemma SpellsIs(m: seq<Letter>, i: nat)
    requires i + 2 <= |m| && m[i] == Ch('i') && m[i + 1] == Ch('s')
    ensures MatchPhrase(m, i, ["is", "as"]) == Some(2)
  {
    assert m[i..i + 2] == [Ch('i'), Ch('s')];
    assert Join([Ch('i'), Ch('s')]) == "is" by {
      assert [Ch('i'), Ch('s')][..1] == [Ch('i')];
      assert [Ch('i')][..0] == [];
    }
  }

  /** Phrase matching has no word boundary: "is" is found inside "this". */
  lemma PhraseInsideWord(m: seq<Letter>, i: nat)
    requires i + 2 <= |m| && m[i] == Ch('i') && m[i + 1] == Ch('s')
    ensures DelayRule(m, i) == (7, 2)
  {
    assert "i" !in Puncs;
    var rest: seq<Phrase> := ["is", "as"];
    SkipsPhrase(m, i, ShortPhrases, 'i');
    assert ShortPhrases[1..] == ["out"] + rest;
    SkipsPhrase(m, i, ShortPhrases[1..], 'i');
    assert ShortPhrases[1..][1..] == rest;
    SpellsIs(m, i);
  }

  /** At trimmed index 3, `slice(i - 4, i)` is `slice(-1, 3)`, which is empty: the
      start-of-word rule (0.8) never applies there. */
  lemma NoWordStartRuleAtThree(m: seq<Letter>)
    requires |m| > 3
    ensures DelayRule(m, 3).0 != 8
  {
    SliceFromMinusOneIsEmpty(m);
  }
}
