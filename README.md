# Live typing: the letter script and its player

This project is a Dafny model of the core of a "live typing" web component: the
pipeline `TyperExecutable` and the player `Type`. The player holds a visible
container with some markup already typed and a cursor element as its last
child. It also holds a hidden container with the content to show next.

- `TyperExecutable.run` turns the typed markup into the new content in four steps:
  1. It compares the two child lists from the front (`getNodesDifference`). Where
     they diverge it finds which typed nodes to delete, which new nodes to add, and
     at most one node edited in place by a common-prefix split of its text
     (`getWordDifference`).
  2. It flattens that difference into a letter script (`nodesToLetters` /
     `nodesToBkspcs`): one operation per character to backspace or to type, with
     the backspace half reversed in front of the typed half.
  3. It gives every operation a delay from its context (`injectDelays`).
  4. It splices in random typo bursts (`injectBkspcs`). A burst is a corrupted run
     of operations, as many backspaces, and a clean copy of the run.
- `Type.run` plays the script one operation per timer callback. Each operation's
  node moves in front of the cursor. A backspace takes the node's last character;
  any other operation appends its letter. The first operation that types refreshes
  the invisible container. When the script runs out, `complete` settles the cursor.

How the model is organised:

- **DOM nodes** are values `Node(id, shell, text)`. `shell` stands for everything
  `isEqualNode` compares except the text.
- **Delays** are exact naturals in milliseconds. Multipliers are kept in tenths.
- **`Math.random()`** is an oracle `rand: nat -> real` with values in [0, 1); the
  `k`-th call returns `rand(k)`.
- **Pure parts** (both differences, the script layout, the two passes, playback)
  are functions with lemmas.
- **Stateful parts** are classes:
  - `TyperExecutable` holds `letters: seq<Op>`, which `InjectDelays`,
    `InjectBkspcs` and `Run` update in place. Each is proved equal to the
    specification function of its pass.
  - `Type` holds the visible children, the texts, the invisible container and the
    scheduled timer delays. Its `Run` is proved to leave the scene that typing the
    content prescribes. The all-inputs lemmas in `RoundTrip` and `Player` prove
    that this scene shows the new content.
  - `Cursor` holds the cursor's display flags.

Files, one module each: `wrappers`, `nodes`, `slices` (JavaScript's `slice`),
`word_diff`, `nodes_diff`, `script`, `playback`, `delays`, `bursts`,
`executable` (the class `TyperExecutable`), `footprint` (which nodes a script
acts on), `round_trip`, `children` (the child list and `insertBefore`) and
`player` (the classes `Type` and `Cursor`).

Three details of the code that the model keeps as written:

1. **Where the 350 ms penalty goes.** It is added to the last operation of the
   corrupted run, index `i` (src/TyperExecutable.ts:79), not to the burst's
   first operation.
2. **Where the scan resumes.** It resumes at `i + 2 * contLen + 3`, counted from
   the run's end (src/TyperExecutable.ts:81 followed by the loop's `i++`).
3. **The run length.** Both clamps (src/TyperExecutable.ts:56-60) look as if a
   run could shrink to length 0. The loop's own arithmetic rules that out: a
   run is always 2 or 3 operations long and starts at index 1 or later, and the
   second clamp never changes it (`Bursts.ClampedContLen`).

## Model

| member | source | states |
|---|---|---|
| WordDiff.CommonPrefixLength | src/TyperExecutable.ts:152-159 | the two strings agree on the first n characters and, where neither has ended, differ at n: n is the longest common prefix |
| WordDiff.DiffFrom | src/TyperExecutable.ts:152-160 | the index loop, started at any index up to which the strings agree, returns the remainders after the longest common prefix |
| WordDiff.GetWordDifference | src/TyperExecutable.ts:149-161 | the old text is the common prefix followed by `dels` and the new text is that prefix followed by `adds`; when both are non-empty, they start with different characters |
| WordDiff.WordDifferenceUnique | src/TyperExecutable.ts:149-161 | every split into a shared prefix and two remainders that do not start alike is the result, so the result is characterised completely |
| WordDiff.EqualTextsGiveEmptyDifference | src/TyperExecutable.ts:149-161 | equal texts give `["", ""]` |
| WordDiff.HelloWorldExample | src/TyperExecutable.ts:149-161 | "hello world" edited to "hello there" deletes "world" and adds "there" |
| Nodes.IsEqualNode | src/TyperExecutable.ts:224 | `isEqualNode` on the model's nodes: two nodes are equal when their shells and their texts agree, whatever their identities |
| Nodes.IsLooselyEqualNodes | src/TyperExecutable.ts:167-172 | a shallow clone of the first node, given the second node's text, is equal to the second node; `LooselyEqualIsSameShell` reduces this to equal shells |
| Nodes.LooselyEqualIsSameShell | src/TyperExecutable.ts:167-172 | a shallow clone given the other node's text equals it exactly when the shells agree; equal nodes are loosely equal |
| NodesDiff.FirstUnequal | src/TyperExecutable.ts:211-224 | every pair before the index is equal, and the pair at the index (when both lists reach it) is not |
| NodesDiff.ScanFrom | src/TyperExecutable.ts:211-252 | the loop from any index before which all pairs are equal stops at the first unequal position, with the outcome that position prescribes |
| NodesDiff.GetNodesDifference | src/TyperExecutable.ts:208-253 | `delNodes` is a suffix of the typed list and `addNodes` a suffix of the new list; the result is the one the first unequal position prescribes |
| NodesDiff.TypedIsStrictPrefix | src/TyperExecutable.ts:214-221 | when the typed list is a strict prefix of the new one, nothing is deleted, the rest of the new list is added, and there is no partial edit |
| NodesDiff.NewIsPrefix | src/TyperExecutable.ts:248-252 | when the new list is a prefix of the typed one (equal lists included), nothing is added, the rest of the typed list is deleted, and there is no partial edit |
| NodesDiff.Divergence | src/TyperExecutable.ts:223-244 | at the first unequal pair, nodes with the same shell give an in-place edit of the typed node with `delNodes` and `addNodes` the rest of each list; nodes with different shells give both lists replaced from that index on |
| NodesDiff.SameContentNoDifference | src/TyperExecutable.ts:208-253 | identical lists give an empty difference |
| Script.PushTextLetters | src/TyperExecutable.ts:197-203 | the loop appends one operation per character of the text, in order, on the node, with delay 0 |
| Script.PushNodeLetters | src/TyperExecutable.ts:187-204 | an empty node appends exactly one `""` operation; any other node appends one operation per character |
| Script.NodesToLetters | src/TyperExecutable.ts:174-207 | the result is the partial node's operations followed by each node's operations, node after node |
| Script.NodesToBkspcs | src/TyperExecutable.ts:173 | the result is `nodesToLetters` under the "bkspc" override |
| Script.NodesLettersSize | src/TyperExecutable.ts:187-205 | the nodes contribute Σ max(1, \|text\|) operations, all with delay 0 |
| Script.NodeLettersPlaced | src/TyperExecutable.ts:187-205 | the operations of each node are contiguous, in text order, and follow those of the nodes before it |
| Script.NodesLettersKinds | src/TyperExecutable.ts:175-200 | under the override everything is a backspace except each empty node's `""`; without the override there is no backspace at all |
| Script.CountBkspcNodes | src/TyperExecutable.ts:173 | the backspace half of a node list holds exactly Σ \|text\| backspaces, since empty nodes contribute none |
| Script.LettersOf | src/TyperExecutable.ts:174-207 | what `nodesToLetters` returns: the partial node's operations, then each node's, node after node; `NodesToLetters` is proved to compute it |
| Script.LettersOfShape | src/TyperExecutable.ts:174-207 | the length is \|partial text\| + Σ max(1, \|text\|) and every delay is 0; under the override it has \|partial text\| + Σ \|text\| backspaces and nothing else except `""` |
| Script.Reverse | src/TyperExecutable.ts:276 | the reversed script has the same length and element `k` is element `n - 1 - k` of the original |
| Script.CountBkspcReverse | src/TyperExecutable.ts:276 | reversing keeps the number of backspaces |
| Script.Assemble | src/TyperExecutable.ts:261-276 | the script `run` builds from a difference: the backspace half reversed, then the typed half |
| Script.AssembleShape | src/TyperExecutable.ts:261-276 | before the passes every backspace precedes the typed half, which holds none; there are \|dels\| + Σ \|text of deleted nodes\| backspaces; every delay is 0 |
| Script.SameContentEmptyScript | src/TyperExecutable.ts:254-276 | unchanged content gives an empty script |
| Slices.JsSlice | src/TyperExecutable.ts:142 | JavaScript's `slice(start, end)`: both bounds are normalised by `SliceBound`, and the result is the part between them, or empty when they cross |
| Slices.SliceBound | src/TyperExecutable.ts:142 | a bound inside the sequence is kept, a negative bound counts from the end, and every result lies within the sequence |
| Slices.DropLastSlice | src/Type.ts:123 | `slice(0, -1)` drops the last element and leaves an empty sequence empty |
| Slices.SliceFromMinusOneIsEmpty | src/TyperExecutable.ts:142 | at index 3, `slice(-1, 3)` is empty |
| Slices.SliceWindow | src/TyperExecutable.ts:142 | from index 4 on, `slice(i - 4, i)` is the four elements before `i` |
| Playback.ApplyOp | src/Type.ts:120-130 | a backspace removes its node's last character (and leaves "" as it is); a character is appended and `""` appends nothing; no other node changes |
| Playback.Play | src/Type.ts:112-136 | the texts after the callbacks of a script: `ApplyOp` for each operation, first to last; `PlayConcat` and the lemmas below state what that does |
| Playback.PlayConcat | src/Type.ts:104-110 | operations are applied in index order: playing `a + b` is playing `a`, then `b` |
| Playback.PlayIgnoresDelays | src/Type.ts:120-131 | two scripts with the same letters on the same nodes leave the same texts, whatever their delays |
| Playback.PlayRemovals | src/Type.ts:122-123 | a script of backspaces and `""` removes from each node as many characters as it has backspaces for that node, in any order |
| Playback.PlayTyping | src/Type.ts:124-130 | a script without backspaces appends to each node exactly what it types for it |
| Playback.PlaySameTexts | src/Type.ts:120-130 | playing a script depends only on the texts it starts from |
| Playback.UndoRestores | src/Type.ts:120-130 | typing characters and then backspacing over them, last first, restores every text |
| Playback.PlayUndone | src/Type.ts:120-130 | typed characters that are immediately backspaced can be cut out of a script without changing any node's final text |
| Delays.MutLetters | src/TyperExecutable.ts:86-87 | the letters of the script from index 1 on: one fewer than the script |
| Delays.ChangeDelays | src/TyperExecutable.ts:105 | exactly the delays of script indices `i` to `i + n - 1` other than 0 are set to 40 × the multiplier; everything else is kept, including each letter and node |
| Delays.MatchPhrase | src/TyperExecutable.ts:100-114 | a matched phrase lies within the letters and has length at least 1; a run starting with a backspace matches no phrase |
| Delays.UpperChar | src/TyperExecutable.ts:133 | `toUpperCase` on one character: a to z become A to Z and every other character is its own upper case |
| Delays.ToUpperCase | src/TyperExecutable.ts:133 | `toUpperCase` on a string, character by character |
| Delays.DelayRule | src/TyperExecutable.ts:116-146 | the multiplier in tenths and the number of letters it covers, chosen in the source's order: punctuation, short phrase, long phrase, `""`, upper case, space, a letter near a space, otherwise 1 |
| Delays.DelayRuleShape | src/TyperExecutable.ts:116-146 | every rule's delay is one of 28, 32, 40, 48, 56, 72, 100; a rule covers at least one letter and never goes past the end; a backspace's rule covers only itself |
| Delays.DelayStep | src/TyperExecutable.ts:97-146 | one turn of the loop: the 0.6 for a backspace, then the rule's delay on its span, and the next index |
| Delays.DelayStepShape | src/TyperExecutable.ts:97-147 | one turn writes only delays, on the indices it covers, and each of those except index 0 ends with one of the final delays, because the 0.6 written for a backspace is always overwritten |
| Delays.DelayScan | src/TyperExecutable.ts:97-147 | the loop keeps length, letters and nodes, leaves the earlier indices and the last operation as they are, and leaves a final delay on each scanned index except 0 |
| Delays.DelayPass | src/TyperExecutable.ts:85-148 | `injectDelays` on a whole script: an empty script is kept, otherwise the loop runs over the letters from index 1 on |
| Delays.DelayPassShape | src/TyperExecutable.ts:85-148 | the pass keeps length, letters and nodes, keeps the delays of the first and the last operation, and leaves every other operation with one of the seven final delays |
| Delays.MatchPhraseNeedsLowercase | src/TyperExecutable.ts:100-114 | no phrase matches at a character that is not a lowercase letter |
| Delays.CaselessGetsUppercaseDelay | src/TyperExecutable.ts:133-136 | a digit, a space or any other caseless character that is not punctuation gets 1.8 |
| Delays.SpaceGetsUppercaseDelay | src/TyperExecutable.ts:133-141 | a space always gets 1.8, so the space rule is never reached |
| Delays.BackspaceRule | src/TyperExecutable.ts:116-146 | a backspace always ends with 0.8 or 1: its 0.6 is replaced |
| Delays.PhraseInsideWord | src/TyperExecutable.ts:100-124 | "is" gets 0.7 over two letters wherever it is spelt, for example inside "this" |
| Delays.NoWordStartRuleAtThree | src/TyperExecutable.ts:142 | at trimmed index 3 the start-of-word rule (0.8) never applies |
| Bursts.ContLenDraw | src/TyperExecutable.ts:54 | the drawn run length is 2 or 3 |
| Bursts.ClampedContLen | src/TyperExecutable.ts:56-60 | after the clamps a run is 2 or 3 long, starts at index 1 or later and after the last burst's backspaces, and the second clamp never changes it |
| Bursts.RandomLetter | src/TyperExecutable.ts:46 | the substituted character is a lowercase letter a to z |
| Bursts.AddMistake | src/TyperExecutable.ts:39-48 | on a swap the run's first two letters are exchanged; otherwise the first letter becomes a random lowercase letter; nothing else changes |
| Bursts.Resume | src/TyperExecutable.ts:78-79 | the last backspace takes the run's first delay and the run's last operation gets 350 ms more; nothing else changes |
| Bursts.BurstAt | src/TyperExecutable.ts:61-79 | a burst lengthens the script by twice the run |
| Bursts.BurstAtIndex | src/TyperExecutable.ts:62-72 | position by position: the script before the run, the corrupted run, the backspaces, a clean copy of the run, then the rest of the script shifted by 2 × contLen |
| Bursts.BurstDelays | src/TyperExecutable.ts:73-79 | the run's last operation waits 24 + 350 ms, each backspace but the last waits 24 ms, and the last backspace waits as long as the run's first operation did; the rest of the run keeps its delays; letters past the run's first two are kept |
| Bursts.BurstStepsAgree | src/TyperExecutable.ts:61-79 | the source's splices, slow-down, mistake and resume together produce exactly the layout of `BurstAt` |
| Bursts.RunLength | src/TyperExecutable.ts:54-60 | the run at a trigger has 2 or 3 operations and lies within the script |
| Bursts.Bursting | src/TyperExecutable.ts:61-81 | after a burst the scan can resume, past the copy of the run, and it makes progress |
| Bursts.BurstStep | src/TyperExecutable.ts:53-82 | one iteration keeps the scan's invariant and makes progress |
| Bursts.BurstStepLetters | src/TyperExecutable.ts:55-81 | on a trigger the script gets the burst's layout; otherwise it is unchanged |
| Bursts.TriggeredStep | src/TyperExecutable.ts:55-81 | a triggered iteration is the burst, with the index, the last burst's end and the draws it prescribes |
| Bursts.QuietPassUnchanged | src/TyperExecutable.ts:53-83 | with no trigger anywhere, the pass leaves the script unchanged |
| Bursts.BurstScan | src/TyperExecutable.ts:53-82 | the loop of `injectBkspcs` as written, from a scan state to its end: `BurstStep` until the index passes the script |
| Bursts.BurstPass | src/TyperExecutable.ts:35-84 | `injectBkspcs` as written on a whole script, from index 2 with no burst yet and the draws `rand(0)`, `rand(1)`, ... |
| Bursts.BurstScanShape | src/TyperExecutable.ts:53-83 | the pass never shortens the script and never touches its first operation |
| Bursts.TypoShape | src/TyperExecutable.ts:39-48 | the corrupted run keeps its nodes and types wherever the run typed |
| Bursts.RetreatUndoesTypo | src/TyperExecutable.ts:62-69 | the burst's backspaces are on the corrupted run's nodes, last to first |
| Bursts.BurstKeepsText | src/TyperExecutable.ts:62-77 | a burst over a run that only types characters leaves every node with the text the run alone leaves |
| Bursts.TypedStepKeepsReach | src/TyperExecutable.ts:59-81 | every operation from the end of the last burst's backspaces on still types a character after each iteration |
| Bursts.TypedPassKeepsText | src/TyperExecutable.ts:53-83 | on a script that only types characters, the bursts cancel out on every node |
| Bursts.OverDeletingBurst | src/TyperExecutable.ts:53-83 | on three backspaces with a trigger at index 2, the pass yields a backspace, an 'n' and five more backspaces |
| Bursts.BurstOverBackspacesOverDeletes | src/TyperExecutable.ts:53-81 | three backspaces on "abcdefg" leave "abcd", but with that burst they leave "ab" |
| Bursts.GuardedBurstStep | src/TyperExecutable.ts:53-82 | the corrected iteration, which bursts only over runs of typed characters, keeps the scan's invariant and makes progress |
| Bursts.GuardedPassKeepsText | src/TyperExecutable.ts:53-83 | with the guard, the bursts cancel out on every script and for every draw |
| Bursts.GuardedTriggeredStep | src/TyperExecutable.ts:55-81 | in the corrected pass, a triggered iteration over a run that only types is the burst the source makes |
| Bursts.GuardedPasses | src/TyperExecutable.ts:53-55 | in the corrected pass, an iteration without a trigger, or with a run that does not only type, goes on to the next index |
| Bursts.GuardedPassAgrees | src/TyperExecutable.ts:53-83 | on a script that only types characters, the guarded pass is the source's pass |
| Executable.Clones | src/TyperExecutable.ts:255-256 | the clones are equal to the children, one each, with the fresh identities `base + k` |
| Executable.Cleared | src/TyperExecutable.ts:278-280 | clearing keeps identities and shells and empties every text |
| Executable.ScriptFor | src/TyperExecutable.ts:254-286 | the script `run` returns: the difference of fresh clones against the typed markup, assembled, then the delay pass and the corrected typo pass (see Findings) |
| Executable.TyperExecutable.constructor | src/TyperExecutable.ts:23-26 | the container and the typed markup are stored, and the script is empty |
| Executable.TyperExecutable.WordDifference | src/TyperExecutable.ts:149-161 | the loop with its early returns computes `GetWordDifference` |
| Executable.TyperExecutable.NodesDifference | src/TyperExecutable.ts:208-253 | the loop with its early returns computes `GetNodesDifference` |
| Executable.TyperExecutable.ChangeDelayAt | src/TyperExecutable.ts:88-90 | the write through `mutatable[index - 1]` lands on script index `index`, and nothing is written for index 0 |
| Executable.TyperExecutable.ChangeDelaysAt | src/TyperExecutable.ts:105 | the delays of the `n` letters from `i` on are set |
| Executable.TyperExecutable.SearchPhrases | src/TyperExecutable.ts:100-114 | it reports whether a phrase matches; on a match it sets the phrase's delays and moves `i` to the phrase's last letter, and otherwise changes nothing |
| Executable.TyperExecutable.DelayTurnAt | src/TyperExecutable.ts:98-146 | one turn of the loop leaves the script and the next index that `DelayStep` prescribes |
| Executable.TyperExecutable.RuleAt | src/TyperExecutable.ts:119-146 | the first rule that applies, in the source's order, is chosen and applied over its span |
| Executable.TyperExecutable.PlainRule | src/TyperExecutable.ts:129-146 | the multiplier of the rules after the phrase searches is the rule's |
| Executable.TyperExecutable.InjectDelays | src/TyperExecutable.ts:85-148 | in place, the script becomes `DelayPass` of the old script |
| Executable.TyperExecutable.AddMistakeAt | src/TyperExecutable.ts:39-48 | the mistake is `AddMistake` with the next draws, and one draw (swap) or two (substitution) are used |
| Executable.TyperExecutable.SpliceBackspaces | src/TyperExecutable.ts:62-69 | `contLen` backspaces are inserted right after `i`, the `j`-th on the node of `letters[i - j]` |
| Executable.TyperExecutable.SpliceCopies | src/TyperExecutable.ts:70-72 | inserting copies in reverse order after the backspaces leaves the run copied forward |
| Executable.TyperExecutable.SlowDownRun | src/TyperExecutable.ts:73-76 | the `n` operations from `i` on get 24 ms |
| Executable.TyperExecutable.Burst | src/TyperExecutable.ts:61-79 | in place, one burst produces the layout of `BurstAt`, and the draws it uses are counted |
| Executable.TyperExecutable.ClampRun | src/TyperExecutable.ts:56-60 | the two clamps compute `ClampedContLen` |
| Executable.TyperExecutable.BurstTurnAt | src/TyperExecutable.ts:54-81 | one iteration draws `contLen` and the trigger and, on a trigger over a run that only types, bursts: it leaves the script, index, last burst end and draw count of `GuardedBurstStep` |
| Executable.TyperExecutable.InjectBkspcs | src/TyperExecutable.ts:35-84 | in place, the script becomes `GuardedBurstPass` of the old script for the same draws: the source's pass with the correction of the Findings section |
| Executable.TyperExecutable.ClearTexts | src/TyperExecutable.ts:278-280 | every node's text is emptied |
| Executable.TyperExecutable.Run | src/TyperExecutable.ts:254-286 | the returned script is the difference of fresh clones against the typed markup, assembled and sent through the delay pass and the corrected typo pass; the cleared clones are returned too |
| Footprint.AssembleTouches | src/TyperExecutable.ts:261-276 | the assembled script acts only on the new content's nodes and the typed ones |
| Footprint.BurstAtTouches | src/TyperExecutable.ts:62-72 | a burst adds operations only on the nodes of its run |
| Footprint.ScriptForTouches | src/TyperExecutable.ts:254-286 | the script of `run` acts only on the clones and the typed nodes |
| Children.InsertBefore | src/Type.ts:120 | moving a node before a child keeps the other children and adds the node |
| Children.InsertBeforeLast | src/Type.ts:120 | with the cursor last, the node ends up last but one and every other child keeps its place in the order |
| Children.InsertBeforeLastDistinct | src/Type.ts:120 | the move keeps the children distinct and the cursor last, with the node right before it |
| Children.InsertBeforeLastMarkup | src/Type.ts:86-95 | read without the cursor, the markup after the move is the markup without the node, then the node |
| Children.InsertBeforeAgain | src/Type.ts:120 | moving a node before the cursor twice is moving it once |
| Children.AttachAll | src/Type.ts:120 | the children after each operation's `insertBefore(op.ele, cursorEle)`, first to last |
| Children.AttachAllShape | src/Type.ts:104-131 | after the whole script the children are the old ones plus the script's nodes, none twice, with the cursor still last and the last node acted on right before it |
| Player.TimerDelays | src/Type.ts:131-134 | one timer per operation, in order, each the operation's delay times the multiplier |
| Player.PlayedScene | src/Type.ts:104-131 | the callbacks for the whole script leave the texts played, the nodes moved before the cursor, the delays scheduled, and the invisible container refreshed once unless the script only erases |
| Player.ContentShown | src/TyperExecutable.ts:254-286 | playing the script of `run` from fresh clones and the typed texts shows the new content, whatever the draws |
| Player.TypingComposes | src/Type.ts:102-136 | reading the markup, adopting the clones and playing the script together make up typing the content |
| Player.StartsFresh | src/TyperExecutable.ts:255-280 | in a numbered scene the clones meet the round trip's assumptions: fresh identities, the clones empty, the typed nodes showing their texts |
| Player.TypingShowsContent | src/Type.ts:96-137 | at the end of `run` every position of the new content shows its text, every node no longer used is empty, and no other node changed |
| Player.Cursor.constructor | src/Type.ts:3-8 | the four display flags are stored |
| Player.Type.constructor | src/Type.ts:52-59 | the containers, the multiplier and the cursor are stored; the visible container holds only the cursor |
| Player.Type.TypedMarkup | src/Type.ts:86-95 | each typed node is owned and is read with its current text |
| Player.Type.GetTypedMarkup | src/Type.ts:86-95 | the loop collects every child but the cursor, in order |
| Player.Type.KillRunOperations | src/Type.ts:60-63 | no timer is pending afterwards |
| Player.Type.Complete | src/Type.ts:64-72 | after 450 ms the cursor is hidden, `full` and `blink` become true if `stay` is set and are otherwise unchanged, and `stay` is kept |
| Player.Type.UpdateInvisibleCont | src/Type.ts:83-85 | the invisible container takes the content, and the refresh is counted |
| Player.Type.MoveBeforeCursor | src/Type.ts:120 | the node goes before the cursor, and the player stays valid |
| Player.Type.TypeNext | src/Type.ts:114-132 | one callback: the node moves before the cursor, its text is updated by the operation, the first operation that types refreshes the invisible container, and the next timer is scheduled after the operation's delay |
| Player.Type.TypeLetter | src/Type.ts:121-130 | the text step of a callback, and the one refresh on the first operation that types |
| Player.Type.PlayScript | src/Type.ts:104-136 | the callbacks apply every operation once, in index order, and schedule 150 ms × multiplier followed by each operation's delay |
| Player.Type.Adopt | src/Type.ts:102-103 | the cleared clones `run` returns join the owned nodes, and the player stays valid |
| Player.Type.Prepare | src/Type.ts:102-103 | the script is `run`'s for the typed markup, and every node it acts on is owned |
| Player.Type.PrepareTyped | src/Type.ts:102-103 | the same, reading the typed markup from the visible children |
| Player.Type.PlayTyped | src/Type.ts:104-136 | the script is played and, once it is exhausted, `complete` settles the cursor |
| Player.Type.Run | src/Type.ts:96-137 | with no content the cursor settles and nothing else changes; otherwise the scene ends as typing the content prescribes, its texts show the new content, and the cursor settles after the last timer |
| RoundTrip.AssembleAt | src/TyperExecutable.ts:261-276 | on each node the assembled script removes the characters of its backspace half and then appends what its typed half spells, whatever the operations' order |
| RoundTrip.TypedValue | src/TyperExecutable.ts:208-276 | a typed node that stays in use ends with the new text of its position; any other typed node ends empty |
| RoundTrip.CloneValue | src/TyperExecutable.ts:254-280 | an added clone, which starts empty, ends with its text; any other clone stays empty |
| RoundTrip.ForeignValue | src/TyperExecutable.ts:208-276 | a node in neither list is not touched |
| RoundTrip.RoundTrip | src/TyperExecutable.ts:254-280 | the assembled script, played on the typed texts with the clones cleared, shows the new content |
| RoundTrip.DelayPassKeepsTexts | src/TyperExecutable.ts:85-148 | the delay pass changes no text |
| RoundTrip.GuardedRoundTrip | src/TyperExecutable.ts:254-286 | with the corrected burst pass the new content is shown for every draw |
| RoundTrip.QuietRoundTrip | src/TyperExecutable.ts:254-286 | with the source's passes and no typo drawn, the new content is shown |
| RoundTrip.TypedRoundTrip | src/TyperExecutable.ts:254-286 | with the source's passes and a script that only types, the new content is shown for every draw |

## Left out

- `getFilteredNodes` (src/TyperExecutable.ts:27-34) is taken to be the identity. The children are assumed to be element and text nodes only.
- DOM mechanics are abstracted:
  - `cloneNode`, `innerHTML` and `textContent` become `Node(id, shell, text)`.
  - A deep clone is a copy with fresh identities.
  - `getNodeText` and `setNodeText` become reading and writing the text of an identity.
  - The exact semantics of `isEqualNode` become equality of shell and text.
- Nested markup typed inside an element's `innerHTML` is not parsed. A text is a plain string.
- Timers are abstracted:
  - The `setTimeout` chain of `Type.run` becomes a loop whose turns are the callbacks.
  - `scheduled` records the delays passed to `setTimeout`, in order.
  - `complete`'s 450 ms timer is recorded the same way, and its effect on the cursor is applied directly.
  - The timer handles `typeTimeout` and `blinkTimeout` are not modelled.
- Player.Type.KillRunOperations: only empties `scheduled`. A run interrupted midway, with its partially applied edits, is not modelled: `PlayScript` and `PlayTyped` start from an empty schedule.
- `delayMultiplier` is a `real`, so the timer delays are exact rather than floating point.
- `Math.random()` itself becomes the oracle `rand`.
- `console.log` (src/TyperExecutable.ts:259, 284) has no effect on the model.
- `running` and `awaitingCallback` (src/Type.ts:44-45) are never used by the code and are left out.
- Delays.UpperChar: `toUpperCase` maps only a to z; every other character is taken to have no case. Non-ASCII letters, such as accented ones, are not modelled.
- Player.Type.MoveBeforeCursor: the cursor is assumed to be the last child of the container, and only owned nodes are moved. `insertBefore` with a reference that is not a child, where the DOM throws, is modelled as no change.
- Player.Type.UpdateInvisibleCont: modelled as copying the content's nodes by value. The structure of the invisible container is not modelled.
- Texts are sequences of Unicode scalar values, one Dafny `char` each. JavaScript strings are sequences of UTF-16 code units. The two agree when every character lies in the Basic Multilingual Plane (the code points one UTF-16 unit holds). Characters outside it, such as emoji, take two code units, and the source handles them inconsistently: it walks a partially edited node's text by code point (src/TyperExecutable.ts:178) but indexes everything else by code unit. That handling is not modelled, and nothing below is claimed for such characters. The members affected are listed one per line:
- WordDiff.GetWordDifference: compares texts `char` by `char`. The source compares and slices by UTF-16 code unit (src/TyperExecutable.ts:152-160), which agrees only on texts inside the Basic Multilingual Plane.
- Script.PushTextLetters: gives one operation per `char`. The source's `text[i]` loop (src/TyperExecutable.ts:197-203) gives one per UTF-16 code unit, so a character outside the Basic Multilingual Plane would give two operations there and one here.
- Script.PushNodeLetters: one operation per `char` of a whole node, with the same limit as `PushTextLetters`.
- Script.NodesToLetters: walks both the partial node and the whole nodes by `char`. The source walks the partial node by code point (src/TyperExecutable.ts:178) and the whole nodes by code unit (src/TyperExecutable.ts:197-203); the two agree only inside the Basic Multilingual Plane.
- Script.NodesToBkspcs: gives one backspace per deleted `char`. For a partially deleted character outside the Basic Multilingual Plane, the source gives one backspace for its two code units, and that backspace removes only one of them. This is not modelled.
- Playback.ApplyOp: a backspace removes the last `char`. The source's `slice(0, -1)` (src/Type.ts:123) removes the last UTF-16 code unit, which is the same thing only inside the Basic Multilingual Plane.
- RoundTrip.RoundTrip: the round trip is claimed of the source only for texts inside the Basic Multilingual Plane (see the first line of this list).
- RoundTrip.GuardedRoundTrip: claimed only for texts inside the Basic Multilingual Plane, and it is about the corrected typo pass (see Findings).
- RoundTrip.QuietRoundTrip: claimed only for texts inside the Basic Multilingual Plane.
- RoundTrip.TypedRoundTrip: claimed only for texts inside the Basic Multilingual Plane.
- Executable.TyperExecutable.BurstTurnAt: one iteration of the corrected typo pass (see Findings). On a run that only types, it is the source's iteration.
- Executable.TyperExecutable.Run: its script goes through the corrected typo pass (see Findings).
- Player.Type.Prepare: the script it plays is `Executable.TyperExecutable.Run`'s, so it has the corrected typo pass.
- Player.Type.PrepareTyped: the same script as `Prepare`, with the corrected typo pass.
- Player.Type.Run: plays the script with the corrected typo pass. The content is shown only for texts inside the Basic Multilingual Plane.
- Player.ContentShown: proved for the corrected typo pass and claimed only for texts inside the Basic Multilingual Plane.
- Player.TypingShowsContent: proved for the corrected typo pass and claimed only for texts inside the Basic Multilingual Plane.
- Executable.TyperExecutable.InjectBkspcs: bursts only over runs that type characters, as the Findings section explains. The source's unguarded loop is modelled by the function `Bursts.BurstPass`, not by a method.
- The hidden container's content is fixed for a player. Changes to the slotted content between runs are not modelled.

## Findings

| source | as written | input that shows it | evidently intended | confidence | as-written member | corrected member |
|---|---|---|---|---|---|---|
| src/TyperExecutable.ts:53-81 | a burst may pick a run that contains backspaces; the "clean copy" then deletes again what the run deleted, and the burst's own backspaces delete the characters the run's typo typed plus earlier ones, so the visible text loses characters it should keep | the script of three backspaces on a node showing "abcdefg", with draws that trigger at index 2 only: three backspaces alone leave "abcd", and the pass makes them leave "ab" | bursts only over runs that type characters, so that whatever the draws, the typos cancel out and the content is shown | not executed | Bursts.BurstOverBackspacesOverDeletes | Bursts.GuardedPassKeepsText |

The rest of the model uses the corrected pass:
- `Executable.TyperExecutable.InjectBkspcs` computes `Bursts.GuardedBurstPass`.
- `RoundTrip.GuardedRoundTrip` and `Player.TypingShowsContent` then prove the round trip for every draw.

The pass as written is `Bursts.BurstPass`. Three lemmas say when its typos still cancel out:
- `RoundTrip.QuietRoundTrip`: when no typo is drawn.
- `RoundTrip.TypedRoundTrip`: when the assembled script only types.
- `Bursts.GuardedPassAgrees`: there, the correction changes nothing.
