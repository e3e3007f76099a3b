/** `injectBkspcs`: the typo pass. Scanning forward from index 2, each index has a
    1/40 chance of a burst: the run of `contLen` operations ending there is
    corrupted, followed by as many backspaces and by a clean copy of the run. */
module Bursts {
  import opened Wrappers
  import opened Script
  import opened Delays
  import opened Playback

  const Min: nat := 2
  const Max: nat := 4
  /** Hesitation added before the backspaces, in milliseconds. */
  const Penalty: nat := 350

  /** `Math.random()` as an oracle: the `k`-th draw of the pass, in [0, 1). */
  ghost predicate Uniform(rand: nat -> real)
  {
    forall k :: 0.0 <= rand(k) < 1.0
  }

  /** The run length drawn before the trigger: one draw scaled to the
      lengths from `Min` up to, but not including, `Max`. */
  function ContLenDraw(r: real): (c: nat)
    requires 0.0 <= r < 1.0
    ensures Min <= c < Max
  {
    (r * (Max - Min) as real).Floor + Min
  }

  /** The two clamps of lines 56 to 60. With the scan's invariant (the last burst
      ended at least three places before `i`), the result is 2 or 3, the run it
      starts lies at index 1 or later and after the last burst's backspaces, and
      the second clamp never changes it. */
  function ClampedContLen(contLen: nat, i: nat, lastBkspcI: Option<nat>): (c: int)
    requires Min <= contLen < Max && Min <= i
    requires lastBkspcI.Some? ==> lastBkspcI.value + 3 <= i
    ensures 2 <= c <= 3 && c <= i
    ensures c == if i < contLen then i else contLen
    ensures lastBkspcI.Some? ==> lastBkspcI.value < i - (c - 1)
  {
    var c1 := if i < contLen then i else contLen;
    match lastBkspcI
    case None => c1
    case Some(last) => if last >= i - (c1 - 1) then i - last - 1 else c1
  }

  /** The substituted letter: one draw picks one of the 26 lowercase letters. */
  function RandomLetter(r: real): (c: char)
    requires 0.0 <= r < 1.0
    ensures 'a' <= c <= 'z'
  {
    (97 + (r * 26.0).Floor) as char
  }

  /** The mistake is a swap when the draw falls in its lower half and the run
      has more than one operation; otherwise it is a substitution. */
  predicate SwapChosen(kindDraw: real, startI: nat, endI: nat)
  {
    (kindDraw * 2.0).Floor == 0 && startI != endI
  }

  /** `addMistake(startI, endI)`: swap the letters of the first two operations of
      the run, or replace the first one's letter by a random lowercase letter.
      Nodes, delays and every other letter are kept. */
  function AddMistake(ls: seq<Op>, startI: nat, endI: nat, kindDraw: real, letterDraw: real): (r: seq<Op>)
    requires startI <= endI < |ls|
    requires 0.0 <= letterDraw < 1.0
    ensures |r| == |ls|
    ensures forall k :: 0 <= k < |ls| ==> r[k].ele == ls[k].ele && r[k].nextDelay == ls[k].nextDelay
    ensures SwapChosen(kindDraw, startI, endI) ==>
      r[startI].letter == ls[startI + 1].letter && r[startI + 1].letter == ls[startI].letter &&
      forall k :: 0 <= k < |ls| && k != startI && k != startI + 1 ==> r[k] == ls[k]
    ensures !SwapChosen(kindDraw, startI, endI) ==>
      r[startI].letter == Ch(RandomLetter(letterDraw)) &&
      forall k :: 0 <= k < |ls| && k != startI ==> r[k] == ls[k]
  {
    if SwapChosen(kindDraw, startI, endI) then
      ls[startI := ls[startI].(letter := ls[startI + 1].letter)][startI + 1 := ls[startI + 1].(letter := ls[startI].letter)]
    else
      ls[startI := ls[startI].(letter := Ch(RandomLetter(letterDraw)))]
  }

  /** The backspaces spliced in after `i`: the `j`-th one targets the node of
      `ls[i - j]`. */
  function Backspaces(ls: seq<Op>, i: nat, c: nat): (r: seq<Op>)
    requires c <= i + 1 && i < |ls|
    ensures |r| == c
  {
    seq(c, j requires 0 <= j < c => Op(Bkspc, ls[i - j].ele, 0))
  }

  /** The two splice loops: the backspaces right after `i`, then a copy of the
      run `ls[i - (c - 1)..i + 1]` (taken before any change) after them. */
  function Splice(ls: seq<Op>, i: nat, c: nat): seq<Op>
    requires 1 <= c <= i < |ls|
  {
    ls[..i + 1] + Backspaces(ls, i, c) + ls[i - (c - 1)..i + 1] + ls[i + 1..]
  }

  /** The backspace slow-down, `changeDelay` at `i + j + 1` for each `j < n`: in this pass
      `changeDelay(index)` writes `letters[index - 1]`, so indices `i` to `i + n - 1`
      get 40 * 0.6. */
  function SlowDown(ls: seq<Op>, i: nat, n: nat): (r: seq<Op>)
  {
    seq(|ls|, k requires 0 <= k < |ls| =>
      if i <= k < i + n then ls[k].(nextDelay := DelayOf(BkspcMultiplier)) else ls[k])
  }

  /** Lines 78 and 79: the last backspace waits as long as the run's first
      operation did, and the run's last operation gets the penalty on top. */
  function Resume(ls: seq<Op>, i: nat, c: nat, toContinueDelay: nat): (r: seq<Op>)
    requires 1 <= c && i + c < |ls|
    ensures |r| == |ls|
    ensures forall k :: 0 <= k < |ls| && k != i && k != i + c ==> r[k] == ls[k]
    ensures r[i + c] == ls[i + c].(nextDelay := toContinueDelay)
    ensures r[i] == ls[i].(nextDelay := ls[i].nextDelay + Penalty)
  {
    var continued := ls[i + c := ls[i + c].(nextDelay := toContinueDelay)];
    continued[i := continued[i].(nextDelay := continued[i].nextDelay + Penalty)]
  }

  /** One burst of `c` operations ending at index `i`, step by step as the source
      performs it: splice, slow down, corrupt, resume. */
  function BurstSteps(ls: seq<Op>, i: nat, c: nat, kindDraw: real, letterDraw: real): seq<Op>
    requires 1 <= c <= i < |ls|
    requires 0.0 <= letterDraw < 1.0
  {
    var start := i - (c - 1);
    Resume(AddMistake(SlowDown(Splice(ls, i, c), i, c), start, i, kindDraw, letterDraw), i, c, ls[start].nextDelay)
  }

  /** The corrupted run: its mistake, and 24 + 350 ms after its last operation. */
  function Typo(run: seq<Op>, kindDraw: real, letterDraw: real): (r: seq<Op>)
    requires 1 <= |run|
    requires 0.0 <= letterDraw < 1.0
    ensures |r| == |run|
  {
    var m := AddMistake(run, 0, |run| - 1, kindDraw, letterDraw);
    m[|m| - 1 := m[|m| - 1].(nextDelay := DelayOf(BkspcMultiplier) + Penalty)]
  }

  /** The backspaces of a burst over the run ending at `i`: on the run's nodes from
      its end to its start, 24 ms each except the last, which waits as long as
      the run's first operation did. */
  function Retreat(ls: seq<Op>, i: nat, c: nat): (r: seq<Op>)
    requires 1 <= c <= i + 1 && i < |ls|
    ensures |r| == c
  {
    seq(c, j requires 0 <= j < c =>
      Op(Bkspc, ls[i - j].ele, if j == c - 1 then ls[i - (c - 1)].nextDelay else DelayOf(BkspcMultiplier)))
  }

  /** The layout of one burst: the script before the run, the corrupted run, its
      backspaces, a clean copy of the run, the rest of the script. */
  function BurstAt(ls: seq<Op>, i: nat, c: nat, kindDraw: real, letterDraw: real): (r: seq<Op>)
    requires 1 <= c <= i < |ls|
    requires 0.0 <= letterDraw < 1.0
    ensures |r| == |ls| + 2 * c
  {
    var start := i - (c - 1);
    var run := ls[start..i + 1];
    ls[..start] + Typo(run, kindDraw, letterDraw) + Retreat(ls, i, c) + run + ls[i + 1..]
  }

  /** Reading `BurstAt` position by position. */
  lemma BurstAtIndex(ls: seq<Op>, i: nat, c: nat, kindDraw: real, letterDraw: real)
    requires 1 <= c <= i < |ls|
    requires 0.0 <= letterDraw < 1.0
    ensures var r, start := BurstAt(ls, i, c, kindDraw, letterDraw), i - (c - 1);
      && (forall k :: 0 <= k < start ==> r[k] == ls[k])
      && (forall k :: start <= k <= i ==> r[k] == Typo(ls[start..i + 1], kindDraw, letterDraw)[k - start])
      && (forall k :: i < k <= i + c ==> r[k] == Retreat(ls, i, c)[k - i - 1])
      && (forall k :: i + c < k < |r| ==> r[k] == ls[k - 2 * c])
  {
    var start := i - (c - 1);
    var run := ls[start..i + 1];
    var t, b := Typo(run, kindDraw, letterDraw), Retreat(ls, i, c);
    var r := BurstAt(ls, i, c, kindDraw, letterDraw);
    assert r == ls[..start] + t + b + (run + ls[i + 1..]);
    assert run + ls[i + 1..] == ls[start..];
  }

  /** The delays and letters of a burst: the run's last operation waits 24 + 350 ms,
      every backspace but the last 24 ms, the last backspace as long as the run's
      first operation did; the rest of the run keeps its delays, and the mistake
      changes at most the run's first two letters. */
  lemma BurstDelays(ls: seq<Op>, i: nat, c: nat, kindDraw: real, letterDraw: real)
    requires 1 <= c <= i < |ls|
    requires 0.0 <= letterDraw < 1.0
    ensures var r, start := BurstAt(ls, i, c, kindDraw, letterDraw), i - (c - 1);
      && r[i].nextDelay == 374
      && (forall k :: i < k < i + c ==> r[k].nextDelay == 24)
      && r[i + c].nextDelay == ls[start].nextDelay
      && (forall k :: start <= k < i ==> r[k].nextDelay == ls[k].nextDelay)
      && (forall k :: start + 2 <= k <= i ==> r[k].letter == ls[k].letter)
  {
    var start := i - (c - 1);
    var run := ls[start..i + 1];
    BurstAtIndex(ls, i, c, kindDraw, letterDraw);
    var t, m := Typo(run, kindDraw, letterDraw), AddMistake(run, 0, c - 1, kindDraw, letterDraw);
    assert forall k :: 0 <= k < c - 1 ==> t[k] == m[k];
    assert forall k :: start <= k <= i ==> run[k - start] == ls[k];
    assert DelayOf(BkspcMultiplier) == 24;
  }

  /** Reading the splice position by position. */
  lemma SpliceIndex(ls: seq<Op>, i: nat, c: nat)
    requires 1 <= c <= i < |ls|
    ensures var r := Splice(ls, i, c);
      && |r| == |ls| + 2 * c
      && (forall k :: 0 <= k <= i ==> r[k] == ls[k])
      && (forall k :: i < k <= i + c ==> r[k] == Op(Bkspc, ls[2 * i + 1 - k].ele, 0))
      && (forall k :: i + c < k < |r| ==> r[k] == ls[k - 2 * c])
  {
    var start := i - (c - 1);
    var r, b := Splice(ls, i, c), Backspaces(ls, i, c);
    assert r == ls[..i + 1] + b + (ls[start..i + 1] + ls[i + 1..]);
    assert ls[start..i + 1] + ls[i + 1..] == ls[start..];
  }

  /** Outside the run and its backspaces the steps only move operations. */
  lemma StepsAgreeOutside(ls: seq<Op>, i: nat, c: nat, kindDraw: real, letterDraw: real)
    requires 1 <= c <= i < |ls|
    requires 0.0 <= letterDraw < 1.0
    ensures var x, start := BurstSteps(ls, i, c, kindDraw, letterDraw), i - (c - 1);
      && (forall k :: 0 <= k < start ==> x[k] == ls[k])
      && (forall k :: i + c < k < |x| ==> x[k] == ls[k - 2 * c])
  {
    var start := i - (c - 1);
    SpliceIndex(ls, i, c);
    var p := Splice(ls, i, c);
    var w := SlowDown(p, i, c);
    var m := AddMistake(w, start, i, kindDraw, letterDraw);
    var x := Resume(m, i, c, ls[start].nextDelay);
    assert forall k :: 0 <= k < start ==> x[k] == m[k] == w[k] == p[k];
    assert forall k :: i + c < k < |x| ==> x[k] == m[k] == w[k] == p[k];
  }

  /** The backspaces come out of the steps as `Retreat` describes them. */
  lemma StepsAgreeBackspaces(ls: seq<Op>, i: nat, c: nat, kindDraw: real, letterDraw: real)
    requires 1 <= c <= i < |ls|
    requires 0.0 <= letterDraw < 1.0
    ensures var x := BurstSteps(ls, i, c, kindDraw, letterDraw);
      forall k :: i < k <= i + c ==> x[k] == Retreat(ls, i, c)[k - i - 1]
  {
    var start := i - (c - 1);
    SpliceIndex(ls, i, c);
    var p := Splice(ls, i, c);
    var w := SlowDown(p, i, c);
    var m := AddMistake(w, start, i, kindDraw, letterDraw);
    var x := Resume(m, i, c, ls[start].nextDelay);
    assert forall k :: i < k < i + c ==> x[k] == m[k] == w[k];
    assert x[i + c] == m[i + c].(nextDelay := ls[start].nextDelay);
    assert m[i + c] == w[i + c] == p[i + c];
  }

  /** On the run the steps put the letters and nodes of `Typo`. */
  lemma StepsRunLetters(ls: seq<Op>, i: nat, c: nat, kindDraw: real, letterDraw: real)
    requires 1 <= c <= i < |ls|
    requires 0.0 <= letterDraw < 1.0
    ensures var x, start := BurstSteps(ls, i, c, kindDraw, letterDraw), i - (c - 1);
      var t := Typo(ls[start..i + 1], kindDraw, letterDraw);
      forall k :: start <= k <= i ==> x[k].letter == t[k - start].letter && x[k].ele == t[k - start].ele
  {
    var start := i - (c - 1);
    SpliceIndex(ls, i, c);
    var p := Splice(ls, i, c);
    var w := SlowDown(p, i, c);
    var m := AddMistake(w, start, i, kindDraw, letterDraw);
    var run := ls[start..i + 1];
    var mr := AddMistake(run, 0, c - 1, kindDraw, letterDraw);
    assert SwapChosen(kindDraw, start, i) == SwapChosen(kindDraw, 0, c - 1);
    forall k | start <= k <= i
      ensures w[k].letter == run[k - start].letter && w[k].ele == run[k - start].ele
    {
      assert run[k - start] == ls[k] == p[k];
    }
    forall k | start <= k <= i
      ensures m[k].letter == mr[k - start].letter && m[k].ele == mr[k - start].ele
    {
      if k > start + 1 {
        assert m[k] == w[k] && mr[k - start] == run[k - start];
      }
    }
  }

  /** On the run the steps put the delays of `Typo`. */
  lemma StepsRunDelays(ls: seq<Op>, i: nat, c: nat, kindDraw: real, letterDraw: real)
    requires 1 <= c <= i < |ls|
    requires 0.0 <= letterDraw < 1.0
    ensures var x, start := BurstSteps(ls, i, c, kindDraw, letterDraw), i - (c - 1);
      var t := Typo(ls[start..i + 1], kindDraw, letterDraw);
      forall k :: start <= k <= i ==> x[k].nextDelay == t[k - start].nextDelay
  {
    var start := i - (c - 1);
    SpliceIndex(ls, i, c);
    var p := Splice(ls, i, c);
    var w := SlowDown(p, i, c);
    var m := AddMistake(w, start, i, kindDraw, letterDraw);
    var x := Resume(m, i, c, ls[start].nextDelay);
    var run := ls[start..i + 1];
    var mr := AddMistake(run, 0, c - 1, kindDraw, letterDraw);
    forall k | start <= k < i ensures x[k].nextDelay == mr[k - start].nextDelay {
      assert x[k].nextDelay == m[k].nextDelay == w[k].nextDelay == p[k].nextDelay;
      assert run[k - start] == ls[k] == p[k];
    }
    assert x[i].nextDelay == w[i].nextDelay + Penalty;
  }

  /** The run comes out of the steps as `Typo` describes it. */
  lemma StepsAgreeRun(ls: seq<Op>, i: nat, c: nat, kindDraw: real, letterDraw: real)
    requires 1 <= c <= i < |ls|
    requires 0.0 <= letterDraw < 1.0
    ensures var x, start := BurstSteps(ls, i, c, kindDraw, letterDraw), i - (c - 1);
      forall k :: start <= k <= i ==> x[k] == Typo(ls[start..i + 1], kindDraw, letterDraw)[k - start]
  {
    StepsRunLetters(ls, i, c, kindDraw, letterDraw);
    StepsRunDelays(ls, i, c, kindDraw, letterDraw);
  }

  /** The splices and writes of the source produce exactly the layout of
      `BurstAt`. */
  lemma BurstStepsAgree(ls: seq<Op>, i: nat, c: nat, kindDraw: real, letterDraw: real)
    requires 1 <= c <= i < |ls|
    requires 0.0 <= letterDraw < 1.0
    ensures BurstSteps(ls, i, c, kindDraw, letterDraw) == BurstAt(ls, i, c, kindDraw, letterDraw)
  {
    var x, y := BurstSteps(ls, i, c, kindDraw, letterDraw), BurstAt(ls, i, c, kindDraw, letterDraw);
    SpliceIndex(ls, i, c);
    BurstAtIndex(ls, i, c, kindDraw, letterDraw);
    StepsAgreeOutside(ls, i, c, kindDraw, letterDraw);
    StepsAgreeBackspaces(ls, i, c, kindDraw, letterDraw);
    StepsAgreeRun(ls, i, c, kindDraw, letterDraw);
    assert |x| == |y|;
    assert forall k :: 0 <= k < |x| ==> x[k] == y[k];
  }

  /** The state of the loop of `injectBkspcs`: the script so far, the index `i`,
      the end of the last burst's backspaces and the number of draws taken. */
  datatype Scan = Scan(letters: seq<Op>, i: nat, lastBkspcI: Option<nat>, draws: nat)

  /** What the loop keeps between iterations: `i` is 2 or more and the next run
      can only start after the last burst's backspaces. */
  predicate Resumable(st: Scan)
  {
    Min <= st.i && (st.lastBkspcI.Some? ==> st.lastBkspcI.value + 3 <= st.i)
  }

  /** The run length drawn at `st.i`, clamped. */
  function RunLength(st: Scan, rand: nat -> real): (c: int)
    requires Uniform(rand) && Resumable(st)
    ensures 2 <= c <= 3 && c <= st.i
  {
    ClampedContLen(ContLenDraw(rand(st.draws)), st.i, st.lastBkspcI)
  }

  /** A burst of `c` operations at `st.i`, and the jump past the copy of the run:
      the kind draw is always taken, the letter draw only for a replacement. */
  function Bursting(st: Scan, rand: nat -> real, c: nat): (r: Scan)
    requires Uniform(rand) && Resumable(st) && st.i < |st.letters|
    requires 1 <= c <= st.i
    ensures Resumable(r)
    ensures |r.letters| - r.i < |st.letters| - st.i
  {
    var d := st.draws;
    var taken := if SwapChosen(rand(d + 2), st.i - (c - 1), st.i) then 3 else 4;
    Scan(BurstAt(st.letters, st.i, c, rand(d + 2), rand(d + 3)), st.i + c * 2 + Min + 1, Some(c + st.i), d + taken)
  }

  /** The iteration that goes on to the next index without a burst. */
  function Passing(st: Scan): (r: Scan)
    requires Resumable(st)
    ensures Resumable(r)
  {
    Scan(st.letters, st.i + 1, st.lastBkspcI, st.draws + 2)
  }

  /** One iteration at index `st.i`: draw `contLen`, draw the trigger, and on a
      trigger burst. */
  function BurstStep(st: Scan, rand: nat -> real): (r: Scan)
    requires Uniform(rand) && Resumable(st) && st.i < |st.letters|
    ensures Resumable(r)
    ensures |r.letters| - r.i < |st.letters| - st.i
  {
    if rand(st.draws + 1) < 1.0 / 40.0 then Bursting(st, rand, RunLength(st, rand)) else Passing(st)
  }

  /** The script after one iteration: the burst's layout on a trigger, the
      script unchanged otherwise. */
  lemma BurstStepLetters(st: Scan, rand: nat -> real)
    requires Uniform(rand) && Resumable(st) && st.i < |st.letters|
    ensures BurstStep(st, rand).letters
         == if rand(st.draws + 1) < 1.0 / 40.0
            then BurstAt(st.letters, st.i, RunLength(st, rand), rand(st.draws + 2), rand(st.draws + 3))
            else st.letters
  {
    if rand(st.draws + 1) < 1.0 / 40.0 {
      var c := RunLength(st, rand);
      BurstStepBursts(st, rand);
      BurstingLetters(st, rand, c);
    }
  }

  lemma BurstStepBursts(st: Scan, rand: nat -> real)
    requires Uniform(rand) && Resumable(st) && st.i < |st.letters|
    requires rand(st.draws + 1) < 1.0 / 40.0
    ensures BurstStep(st, rand) == Bursting(st, rand, RunLength(st, rand))
  {
  }

  lemma BurstingLetters(st: Scan, rand: nat -> real, c: nat)
    requires Uniform(rand) && Resumable(st) && st.i < |st.letters|
    requires 1 <= c <= st.i
    ensures Bursting(st, rand, c).letters == BurstAt(st.letters, st.i, c, rand(st.draws + 2), rand(st.draws + 3))
  {
  }

  /** The state after a burst, from the script it leaves and the draws it took. */
  lemma BurstingScan(rand: nat -> real, ls: seq<Op>, i: nat, lastBkspcI: Option<nat>, draws: nat,
                     c: nat, d: nat, next: Scan, taken: nat)
    requires Uniform(rand) && Resumable(Scan(ls, i, lastBkspcI, draws)) && i < |ls|
    requires 1 <= c <= i && d == draws + 2
    requires next.letters == BurstAt(ls, i, c, rand(d), rand(d + 1))
    requires taken == if SwapChosen(rand(d), i - (c - 1), i) then 1 else 2
    requires next.i == i + c * 2 + Min + 1 && next.lastBkspcI == Some(c + i)
    requires next.draws == d + taken
    ensures Bursting(Scan(ls, i, lastBkspcI, draws), rand, c) == next
  {
    assert rand(d) == rand(draws + 2) && rand(d + 1) == rand(draws + 3);
  }

  /** A triggered iteration is that burst. */
  lemma TriggeredStep(rand: nat -> real, ls: seq<Op>, i: nat, lastBkspcI: Option<nat>, draws: nat,
                      c: nat, d: nat, next: Scan, taken: nat)
    requires Uniform(rand) && Resumable(Scan(ls, i, lastBkspcI, draws)) && i < |ls|
    requires rand(draws + 1) < 1.0 / 40.0 && c == RunLength(Scan(ls, i, lastBkspcI, draws), rand)
    requires d == draws + 2
    requires next.letters == BurstAt(ls, i, c, rand(d), rand(d + 1))
    requires taken == if SwapChosen(rand(d), i - (c - 1), i) then 1 else 2
    requires next.i == i + c * 2 + Min + 1 && next.lastBkspcI == Some(c + i)
    requires next.draws == d + taken
    ensures BurstStep(Scan(ls, i, lastBkspcI, draws), rand) == next
  {
    BurstingScan(rand, ls, i, lastBkspcI, draws, c, d, next, taken);
    BurstStepBursts(Scan(ls, i, lastBkspcI, draws), rand);
  }

  /** The loop of `injectBkspcs` from state `st` on. */
  function BurstScan(st: Scan, rand: nat -> real): seq<Op>
    requires Uniform(rand) && Resumable(st)
    decreases |st.letters| - st.i
  {
    if st.i >= |st.letters| then st.letters else BurstScan(BurstStep(st, rand), rand)
  }

  /** `injectBkspcs` on a whole script, with the draws `rand(0)`, `rand(1)`, ... */
  function BurstPass(ls: seq<Op>, rand: nat -> real): seq<Op>
    requires Uniform(rand)
  {
    BurstScan(Scan(ls, Min, None, 0), rand)
  }

  /** Without a draw under 1/40 at any trigger position, the pass changes
      nothing: the draws then come in pairs, so the triggers are the odd ones. */
  lemma {:induction false} QuietScanUnchanged(st: Scan, rand: nat -> real)
    requires Uniform(rand) && Resumable(st)
    requires st.draws % 2 == 0
    requires forall k :: k % 2 == 1 ==> rand(k) >= 1.0 / 40.0
    ensures BurstScan(st, rand) == st.letters
    decreases |st.letters| - st.i
  {
    if st.i < |st.letters| {
      assert (st.draws + 1) % 2 == 1;
      assert BurstStep(st, rand) == Passing(st);
      QuietScanUnchanged(Passing(st), rand);
    }
  }

  lemma QuietPassUnchanged(ls: seq<Op>, rand: nat -> real)
    requires Uniform(rand)
    requires forall k :: k % 2 == 1 ==> rand(k) >= 1.0 / 40.0
    ensures BurstPass(ls, rand) == ls
  {
    QuietScanUnchanged(Scan(ls, Min, None, 0), rand);
  }

  /** The pass never shortens the script and never touches its first operation,
      which no run can include. */
  lemma {:induction false} BurstScanShape(st: Scan, rand: nat -> real)
    requires Uniform(rand) && Resumable(st)
    ensures var r := BurstScan(st, rand);
      |r| >= |st.letters| && (|st.letters| > 0 ==> r[0] == st.letters[0])
    decreases |st.letters| - st.i
  {
    if st.i < |st.letters| {
      if rand(st.draws + 1) < 1.0 / 40.0 {
        var c := RunLength(st, rand);
        BurstAtIndex(st.letters, st.i, c, rand(st.draws + 2), rand(st.draws + 3));
      }
      BurstScanShape(BurstStep(st, rand), rand);
    }
  }

  /** The corrupted run keeps its nodes, and types a character wherever the
      run did. */
  lemma TypoShape(run: seq<Op>, kindDraw: real, letterDraw: real)
    requires 1 <= |run|
    requires 0.0 <= letterDraw < 1.0
    ensures forall k :: 0 <= k < |run| ==> Typo(run, kindDraw, letterDraw)[k].ele == run[k].ele
    ensures Typed(run) ==> Typed(Typo(run, kindDraw, letterDraw))
  {
    var t, m := Typo(run, kindDraw, letterDraw), AddMistake(run, 0, |run| - 1, kindDraw, letterDraw);
    assert forall k :: 0 <= k < |run| ==> t[k].letter == m[k].letter && t[k].ele == m[k].ele;
  }

  /** The backspaces of a burst undo its corrupted run. */
  lemma RetreatUndoesTypo(ls: seq<Op>, i: nat, c: nat, kindDraw: real, letterDraw: real)
    requires 1 <= c <= i < |ls|
    requires 0.0 <= letterDraw < 1.0
    ensures Undoes(Typo(ls[i - (c - 1)..i + 1], kindDraw, letterDraw), Retreat(ls, i, c))
  {
    var start := i - (c - 1);
    var run := ls[start..i + 1];
    var t, b := Typo(run, kindDraw, letterDraw), Retreat(ls, i, c);
    TypoShape(run, kindDraw, letterDraw);
    assert forall k :: 0 <= k < c ==> t[k].ele == ls[start + k].ele;
    assert forall j :: 0 <= j < c ==> b[j].ele == ls[i - j].ele && b[j].letter == Bkspc;
  }

  /** A burst over a run of typed characters has the same net effect on every
      node's text as the run alone. */
  lemma BurstKeepsText(s: Surface, ls: seq<Op>, i: nat, c: nat, kindDraw: real, letterDraw: real)
    requires 1 <= c <= i < |ls|
    requires 0.0 <= letterDraw < 1.0
    requires Typed(ls[i - (c - 1)..i + 1])
    ensures SameTexts(Play(s, BurstAt(ls, i, c, kindDraw, letterDraw)), Play(s, ls))
  {
    var start := i - (c - 1);
    var run, rest := ls[start..i + 1], ls[i + 1..];
    var t, b := Typo(run, kindDraw, letterDraw), Retreat(ls, i, c);
    TypoShape(run, kindDraw, letterDraw);
    RetreatUndoesTypo(ls, i, c, kindDraw, letterDraw);
    var pre, tail := ls[..start], run + rest;
    assert Play(s, BurstAt(ls, i, c, kindDraw, letterDraw)) == Play(s, pre + (t + b) + tail) by {
      BurstAtSplit(ls, i, c, kindDraw, letterDraw);
    }
    assert Play(s, ls) == Play(s, pre + tail) by {
      BurstAtSplit(ls, i, c, kindDraw, letterDraw);
    }
    PlayUndone(s, pre, t, b, tail);
  }

  /** A burst puts the typo and its backspaces in front of the run. */
  lemma BurstAtSplit(ls: seq<Op>, i: nat, c: nat, kindDraw: real, letterDraw: real)
    requires 1 <= c <= i < |ls|
    requires 0.0 <= letterDraw < 1.0
    ensures var start := i - (c - 1);
      var run, rest := ls[start..i + 1], ls[i + 1..];
      && BurstAt(ls, i, c, kindDraw, letterDraw)
         == ls[..start] + (Typo(run, kindDraw, letterDraw) + Retreat(ls, i, c)) + (run + rest)
      && ls == ls[..start] + (run + rest)
  {
    var start := i - (c - 1);
    var run, rest := ls[start..i + 1], ls[i + 1..];
    assert ls == ls[..start] + (run + rest);
  }

  /** Where the next run may start: after the last burst's backspaces. */
  function Reach(lastBkspcI: Option<nat>): nat
  {
    if lastBkspcI.Some? then lastBkspcI.value + 1 else 0
  }

  /** Every operation from the reach of the last burst on types a character. */
  predicate TypedFromReach(st: Scan)
  {
    forall k :: Reach(st.lastBkspcI) <= k < |st.letters| ==> st.letters[k].letter.Ch?
  }

  /** One iteration keeps the script typed from the new reach on. */
  lemma TypedStepKeepsReach(st: Scan, rand: nat -> real)
    requires Uniform(rand) && Resumable(st) && st.i < |st.letters|
    requires TypedFromReach(st)
    ensures TypedFromReach(BurstStep(st, rand))
  {
    if rand(st.draws + 1) < 1.0 / 40.0 {
      BurstStepBursts(st, rand);
      BurstingKeepsReach(st, rand, RunLength(st, rand));
    } else {
      assert BurstStep(st, rand) == Passing(st);
    }
  }

  /** A burst whose run starts past the reach leaves the script typed from the
      new reach, just past its backspaces, on. */
  lemma BurstingKeepsReach(st: Scan, rand: nat -> real, c: nat)
    requires Uniform(rand) && Resumable(st) && st.i < |st.letters|
    requires 1 <= c <= st.i && Reach(st.lastBkspcI) <= st.i - (c - 1)
    requires TypedFromReach(st)
    ensures TypedFromReach(Bursting(st, rand, c))
  {
    var ls, i := st.letters, st.i;
    var next := BurstAt(ls, i, c, rand(st.draws + 2), rand(st.draws + 3));
    BurstingLetters(st, rand, c);
    assert Reach(Bursting(st, rand, c).lastBkspcI) == i + c + 1;
    BurstAtIndex(ls, i, c, rand(st.draws + 2), rand(st.draws + 3));
    assert forall k :: i + c < k < |next| ==> next[k] == ls[k - 2 * c] && Reach(st.lastBkspcI) <= k - 2 * c;
  }

  /** The run a burst at `st.i` corrupts lies past the reach. */
  lemma RunPastReach(st: Scan, rand: nat -> real)
    requires Uniform(rand) && Resumable(st) && st.i < |st.letters|
    requires TypedFromReach(st)
    ensures var c := RunLength(st, rand); Typed(st.letters[st.i - (c - 1)..st.i + 1])
  {
    var ls, i, c := st.letters, st.i, RunLength(st, rand);
    var run := ls[i - (c - 1)..i + 1];
    forall k | 0 <= k < |run| ensures run[k].letter.Ch? {
      assert run[k] == ls[i - (c - 1) + k];
    }
  }

  /** One iteration on a script typed from the reach on keeps every node's final
      text. */
  lemma TypedStepKeepsText(s: Surface, st: Scan, rand: nat -> real)
    requires Uniform(rand) && Resumable(st) && st.i < |st.letters|
    requires TypedFromReach(st)
    ensures SameTexts(Play(s, BurstStep(st, rand).letters), Play(s, st.letters))
  {
    BurstStepLetters(st, rand);
    if rand(st.draws + 1) < 1.0 / 40.0 {
      RunPastReach(st, rand);
      BurstKeepsText(s, st.letters, st.i, RunLength(st, rand), rand(st.draws + 2), rand(st.draws + 3));
    }
  }

  lemma {:induction false} TypedScanKeepsText(s: Surface, st: Scan, rand: nat -> real)
    requires Uniform(rand) && Resumable(st)
    requires TypedFromReach(st)
    ensures SameTexts(Play(s, BurstScan(st, rand)), Play(s, st.letters))
    decreases |st.letters| - st.i
  {
    if st.i < |st.letters| {
      TypedStepKeepsReach(st, rand);
      TypedStepKeepsText(s, st, rand);
      TypedScanKeepsText(s, BurstStep(st, rand), rand);
    }
  }

  /** On a script that only types characters, the typos of the pass cancel out. */
  lemma TypedPassKeepsText(s: Surface, ls: seq<Op>, rand: nat -> real)
    requires Uniform(rand)
    requires Typed(ls)
    ensures SameTexts(Play(s, BurstPass(ls, rand)), Play(s, ls))
  {
    TypedScanKeepsText(s, Scan(ls, Min, None, 0), rand);
  }

  /** Three backspaces on node 0, and draws that trigger a burst at index 2 only:
      the second draw is the only one under 1/40. */
  const ThreeBackspaces: seq<Op> := [Op(Bkspc, 0, 0), Op(Bkspc, 0, 0), Op(Bkspc, 0, 0)]
  const TriggerAtTwo: nat -> real := k => if k == 1 then 0.0 else 0.5

  /** The script the pass makes of them: a backspace, then the burst over the
      run of the first two, then the copy of that run. */
  const OverDeletingScript: seq<Op> :=
    [Op(Bkspc, 0, 0), Op(Ch('n'), 0, 0), Op(Bkspc, 0, 374), Op(Bkspc, 0, 24), Op(Bkspc, 0, 0), Op(Bkspc, 0, 0), Op(Bkspc, 0, 0)]

  /** The burst has a run of two, its first operation becomes 'n', and the scan
      ends after it. */
  lemma OverDeletingBurst()
    ensures Uniform(TriggerAtTwo)
    ensures BurstPass(ThreeBackspaces, TriggerAtTwo) == OverDeletingScript
  {
    var b := Op(Bkspc, 0, 0);
    var ls, rand := ThreeBackspaces, TriggerAtTwo;
    assert Uniform(rand);
    var st := Scan(ls, Min, None, 0);
    assert (0.5 * (Max - Min) as real).Floor == 1;
    assert RunLength(st, rand) == 2;
    assert (0.5 * 26.0).Floor == 13;
    assert RandomLetter(0.5) == 'n';
    assert !SwapChosen(0.5, 1, 2);
    var typo := Typo([b, b], 0.5, 0.5);
    assert typo == [Op(Ch('n'), 0, 0), Op(Bkspc, 0, DelayOf(BkspcMultiplier) + Penalty)];
    var retreat := Retreat(ls, 2, 2);
    assert retreat == [Op(Bkspc, 0, DelayOf(BkspcMultiplier)), Op(Bkspc, 0, 0)];
    var r := BurstAt(ls, 2, 2, 0.5, 0.5);
    assert r == [b] + typo + retreat + [b, b];
    var next := BurstStep(st, rand);
    assert next == Bursting(st, rand, 2);
    assert next == Scan(r, 9, Some(4), 4);
    assert BurstScan(st, rand) == BurstScan(next, rand);
  }

  /** The script types one character after its first backspace, then has five
      more backspaces, all on node 0. */
  const ReplacingHead: seq<Op> := [Op(Bkspc, 0, 0), Op(Ch('n'), 0, 0)]
  const ErasingTail: seq<Op> := [Op(Bkspc, 0, 374), Op(Bkspc, 0, 24), Op(Bkspc, 0, 0), Op(Bkspc, 0, 0), Op(Bkspc, 0, 0)]

  lemma OverDeletingSplit()
    ensures OverDeletingScript == ReplacingHead + ErasingTail
    ensures |ErasingTail| == 5
    ensures forall k :: 0 <= k < |ErasingTail| ==> ErasingTail[k].letter == Bkspc && ErasingTail[k].ele == 0
  {
  }

  /** A backspace and an 'n' replace the last character with 'n'. */
  lemma ReplaceLastPlay(t: string)
    requires |t| >= 1
    ensures TextOf(Play(map[0 := t], ReplacingHead), 0) == t[..|t| - 1] + "n"
  {
    var b, n := Op(Bkspc, 0, 0), Op(Ch('n'), 0, 0);
    var s := map[0 := t];
    PlaySingle(s, b);
    assert ReplacingHead == [b] + [n];
    PlayConcat(s, [b], [n]);
    PlaySingle(ApplyOp(s, b), n);
  }

  /** Replacing the last character leaves the shorter prefixes as they are. */
  lemma ReplacedPrefix(t: string, c: char, n: nat)
    requires 1 <= n <= |t|
    ensures var u := t[..|t| - 1] + [c]; u[..|u| - n] == t[..|t| - n]
  {
  }

  /** Backspaces on node 0 alone take as many characters off it. */
  lemma BackspacesPlay(s: Surface, ls: seq<Op>)
    requires forall k :: 0 <= k < |ls| ==> ls[k].letter == Bkspc && ls[k].ele == 0
    requires |ls| <= |TextOf(s, 0)|
    ensures TextOf(Play(s, ls), 0) == TextOf(s, 0)[..|TextOf(s, 0)| - |ls|]
  {
    assert BkspcOrEmpty(ls);
    PlayRemovals(s, ls, 0);
    CountBkspcAtAll(ls, 0);
  }

  /** Playing that script on a text of five characters or more leaves all but
      its last five. */
  lemma OverDeletingPlay(t: string)
    requires |t| >= 5
    ensures TextOf(Play(map[0 := t], OverDeletingScript), 0) == t[..|t| - 5]
  {
    OverDeletingSplit();
    PlayConcat(map[0 := t], ReplacingHead, ErasingTail);
    ReplaceLastPlay(t);
    BackspacesPlay(Play(map[0 := t], ReplacingHead), ErasingTail);
    ReplacedPrefix(t, 'n', 5);
  }

  /** Three backspaces on "abcdefg" leave "abcd"; with the burst above they
      leave "ab": the corrupted run, its backspaces and the copy of the run
      delete two characters more than the script alone. */
  lemma BurstOverBackspacesOverDeletes()
    ensures Uniform(TriggerAtTwo)
    ensures TextOf(Play(map[0 := "abcdefg"], ThreeBackspaces), 0) == "abcd"
    ensures TextOf(Play(map[0 := "abcdefg"], BurstPass(ThreeBackspaces, TriggerAtTwo)), 0) == "ab"
  {
    OverDeletingBurst();
    OverDeletingPlay("abcdefg");
    ThreeBackspacesShape();
    BackspacesPlay(map[0 := "abcdefg"], ThreeBackspaces);
    ShorterTexts();
  }

  lemma ThreeBackspacesShape()
    ensures |ThreeBackspaces| == 3
    ensures forall k :: 0 <= k < |ThreeBackspaces| ==> ThreeBackspaces[k].letter == Bkspc && ThreeBackspaces[k].ele == 0
  {
  }

  lemma ShorterTexts()
    ensures "abcdefg"[..2] == "ab" && "abcdefg"[..4] == "abcd"
  {
  }

  /** The pass with bursts restricted to runs that only type characters. */
  function GuardedBurstStep(st: Scan, rand: nat -> real): (r: Scan)
    requires Uniform(rand) && Resumable(st) && st.i < |st.letters|
    ensures Resumable(r)
    ensures |r.letters| - r.i < |st.letters| - st.i
  {
    var c := RunLength(st, rand);
    if rand(st.draws + 1) < 1.0 / 40.0 && Typed(st.letters[st.i - (c - 1)..st.i + 1]) then Bursting(st, rand, c)
    else Passing(st)
  }

  function GuardedBurstScan(st: Scan, rand: nat -> real): seq<Op>
    requires Uniform(rand) && Resumable(st)
    decreases |st.letters| - st.i
  {
    if st.i >= |st.letters| then st.letters else GuardedBurstScan(GuardedBurstStep(st, rand), rand)
  }

  function GuardedBurstPass(ls: seq<Op>, rand: nat -> real): seq<Op>
    requires Uniform(rand)
  {
    GuardedBurstScan(Scan(ls, Min, None, 0), rand)
  }

  lemma GuardedStepKeepsText(s: Surface, st: Scan, rand: nat -> real)
    requires Uniform(rand) && Resumable(st) && st.i < |st.letters|
    ensures SameTexts(Play(s, GuardedBurstStep(st, rand).letters), Play(s, st.letters))
  {
    var ls, i, c := st.letters, st.i, RunLength(st, rand);
    if rand(st.draws + 1) < 1.0 / 40.0 && Typed(ls[i - (c - 1)..i + 1]) {
      assert GuardedBurstStep(st, rand) == Bursting(st, rand, c);
      BurstingLetters(st, rand, c);
      BurstKeepsText(s, ls, i, c, rand(st.draws + 2), rand(st.draws + 3));
    } else {
      assert GuardedBurstStep(st, rand) == Passing(st);
    }
  }

  /** A triggered iteration over a run that only types is that burst. */
  lemma GuardedTriggeredStep(rand: nat -> real, ls: seq<Op>, i: nat, lastBkspcI: Option<nat>, draws: nat,
                             c: nat, d: nat, next: Scan, taken: nat)
    requires Uniform(rand) && Resumable(Scan(ls, i, lastBkspcI, draws)) && i < |ls|
    requires rand(draws + 1) < 1.0 / 40.0 && c == RunLength(Scan(ls, i, lastBkspcI, draws), rand)
    requires Typed(ls[i - (c - 1)..i + 1])
    requires d == draws + 2
    requires next.letters == BurstAt(ls, i, c, rand(d), rand(d + 1))
    requires taken == if SwapChosen(rand(d), i - (c - 1), i) then 1 else 2
    requires next.i == i + c * 2 + Min + 1 && next.lastBkspcI == Some(c + i)
    requires next.draws == d + taken
    ensures GuardedBurstStep(Scan(ls, i, lastBkspcI, draws), rand) == next
  {
    BurstingScan(rand, ls, i, lastBkspcI, draws, c, d, next, taken);
  }

  /** Without a trigger, or with a run that does not only type, the corrected
      iteration goes on to the next index. */
  lemma GuardedPasses(st: Scan, rand: nat -> real)
    requires Uniform(rand) && Resumable(st) && st.i < |st.letters|
    requires !(rand(st.draws + 1) < 1.0 / 40.0 &&
               Typed(st.letters[st.i - (RunLength(st, rand) - 1)..st.i + 1]))
    ensures GuardedBurstStep(st, rand) == Passing(st)
  {
  }

  lemma {:induction false} GuardedScanKeepsText(s: Surface, st: Scan, rand: nat -> real)
    requires Uniform(rand) && Resumable(st)
    ensures SameTexts(Play(s, GuardedBurstScan(st, rand)), Play(s, st.letters))
    decreases |st.letters| - st.i
  {
    if st.i < |st.letters| {
      GuardedStepKeepsText(s, st, rand);
      GuardedScanKeepsText(s, GuardedBurstStep(st, rand), rand);
    }
  }

  /** With the guard, the typos of the pass cancel out on every script. */
  lemma GuardedPassKeepsText(s: Surface, ls: seq<Op>, rand: nat -> real)
    requires Uniform(rand)
    ensures SameTexts(Play(s, GuardedBurstPass(ls, rand)), Play(s, ls))
  {
    GuardedScanKeepsText(s, Scan(ls, Min, None, 0), rand);
  }

  /** Where every run the source can pick only types characters, the guard
      changes nothing. */
  lemma {:induction false} GuardedScanAgrees(st: Scan, rand: nat -> real)
    requires Uniform(rand) && Resumable(st)
    requires TypedFromReach(st)
    ensures GuardedBurstScan(st, rand) == BurstScan(st, rand)
    decreases |st.letters| - st.i
  {
    if st.i < |st.letters| {
      var ls, i, c := st.letters, st.i, RunLength(st, rand);
      assert Typed(ls[i - (c - 1)..i + 1]) by {
        assert forall k :: i - (c - 1) <= k <= i ==> ls[i - (c - 1)..i + 1][k - (i - (c - 1))] == ls[k];
      }
      assert GuardedBurstStep(st, rand) == BurstStep(st, rand);
      TypedStepKeepsReach(st, rand);
      GuardedScanAgrees(BurstStep(st, rand), rand);
    }
  }

  lemma GuardedPassAgrees(ls: seq<Op>, rand: nat -> real)
    requires Uniform(rand)
    requires Typed(ls)
    ensures GuardedBurstPass(ls, rand) == BurstPass(ls, rand)
  {
    GuardedScanAgrees(Scan(ls, Min, None, 0), rand);
  }
}
