# Desktop pet: sprite playback, gestures and the LPS parser

This project models two self-contained parts of a desktop-pet application.

**The pet animator** (`PetAnimator`, src/core/petAnimator.ts) plays sprite clips on a canvas.
- It keeps a registry of clips (name → frames), the current clip, a FIFO queue of pending one-shot clips, a frame index, a time accumulator and the time of the last tick.
- Every render tick does three things in order:
  - it credits the time since the last tick;
  - it hands a finished one-shot clip over to the next queued clip, or to looping `idle`;
  - it advances the frame index by one for every whole frame duration in the accumulator, wrapping at the clip length.
- `setAnimation` either replaces the current clip, restarting its counters, or appends it to the queue. It first loads an unregistered clip when a path is given.
- Pointer gestures use three fixed hit boxes, `pinch`, `head` and `body`, tested in that order.
  - A press on the body arms a 500 ms long-press timer. When it fires, the looping `rise` clip plays and dragging starts.
  - A release without a drag plays `touchHead` or one of the two `touchBody` clips. A release after a drag plays the one-shot `down`.

**The LPS parser** (`LPSDocument` and `Line`, script/lps-core/) reads a line-oriented configuration format into a tree of `Line` nodes.
- Blank lines and `//` comments are skipped.
- A line ending in `{` opens a block, and `}` closes the innermost one.
- Every other line becomes a child of the innermost open block.
- A line's text splits into a name, an info value and `:|key#value` metadata.
- `Line` answers `find`/`findAll`/`get` over its direct children. It serialises its subtree one `name=info` line per node, indented by tabs.

## Layout

| file | module | contents |
|---|---|---|
| options.dfy | `Options` | `Option` |
| pet_regions.dfy | `Regions` | hit boxes, `hitTest`, `checkBody` |
| pet_playback.dfy | `Playback` | the playback state as a value; `setAnimation` and one tick as functions |
| pet_playback_lemmas.dfy | `PlaybackLemmas` | frame-advance closed form, hand-off, wall-clock tracking |
| pet_animator.dfy | `Animator` | the `PetAnimator` class: fields updated in place, each method proved against `Playback` |
| lps_text.dfy | `LpsText` | JavaScript `trim`, `split`, `join`, `includes`, `split(/\r?\n/)` |
| lps_line.dfy | `Lines` | the `Line` node: `add`, `find`, `findAll`, `get`, `toString` |
| lps_document.dfy | `LpsDocument` | line splitting, metadata, the block-stack parser, `_calculateLevel`, the `LPSDocument` class |

Design choices:
- Time is whole time units (`int`), with `frameDuration > 0`.
- Pointer coordinates are `real`.
- Images are abstract `Frame` values. Loading a clip is a parameter: the frames its images decode to, or a decode failure.
- Randomness (`Math.random() > 0.5`) is a `coin` parameter.
- "The render loop requested its next frame" is the `framePending` flag.
- A long-press timer is modelled as two fields:
  - `armedTimers` counts the armed timers;
  - `latestArmed` says whether the timer the handlers can still clear (`mousedownTimeout`) is one of them.
- The LPS tree is a value. The parser's stack of open blocks holds paths from the root. Adding a child through the top of the stack therefore updates the same node the tree holds, as adding through a JavaScript reference does.

Behaviour of the code that a reader might not expect:
- **Dequeue keeps the accumulator.** When a finished clip is replaced by the head of the queue, only the frame index is reset (petAnimator.ts:416-423). Time already credited therefore advances the new clip in the same tick, which can move it past frame 0 (`TickDequeuesHead`).
  - The `idle` fallback goes through `setAnimation` with `applyNow`. It does reset the accumulator and the time baseline (`TickFallsBackToIdle`).
- **A restart credits the whole pause.** `stop` and `start` leave the time baseline alone (petAnimator.ts:366-385), so the first tick after a restart credits all the time since the last tick before the stop (petAnimator.ts:390-397) and can skip many frames (`TickCreditsWholeGap`, `Animator.RestartAfterPause`).
- **Unregistered names with a path are loaded.** `setAnimation` loads an unregistered clip when a path is given, instead of doing nothing.
- **A missing `idle` kills the render loop.** With an empty queue and no registered `idle`, the hand-off leaves no current clip. The frame loop then throws as soon as a frame is due, and no further tick is requested (`TickStopsIff`). `isRunning` stays true, so `start` does not revive it.
- **A second body press orphans the first timer.** The press overwrites `mousedownTimeout`, so a release clears only the latest timer. The earlier one still fires, plays `rise` and turns dragging on.
  - `stop` clears no timer.
  - Each new listener registration in `start` gets a fresh, empty `mousedownTimeout`.
- **Hit-testing throws before any load.** The hit boxes are assigned by `loadAnimation` (petAnimator.ts:154-173), so `checkBody` throws until a first load has completed. The handlers then stop at that call, which the model treats as a press outside every region.
- **`mouseleave` passes no forward option** to `setIgnoreMouseEvent`. That call is outside the model.

## Model

| member | source | states |
|---|---|---|
| `Regions.Bounds` | src/core/petAnimator.ts:154-173 | the three fixed boxes; each is a proper rectangle (left < right, top < bottom) |
| `Regions.FirstHit` | src/core/petAnimator.ts:214-216 | the index of the first region whose box contains the point (all earlier ones miss), or the list length when none does |
| `Regions.CheckBody` | src/core/petAnimator.ts:212-219 | `pinch` iff in the pinch box; `head` iff in the head box and not the pinch box; `body` iff only in the body box; nothing iff in no box |
| `Regions.HitTest` | src/core/petAnimator.ts:221-231 | a point beyond any edge misses the box; points on the edges of a non-empty box hit it (edges inclusive) |
| `Regions.CornersAreInside` | src/core/petAnimator.ts:221-231 | edges are inclusive: all four corners of every box classify as some region |
| `Regions.BodyIsUnambiguous` | src/core/petAnimator.ts:154-173 | the body box is disjoint from the others, so `body` is returned exactly for points in it; pinch wins over head where they overlap |
| `Playback.Initial` | src/core/petAnimator.ts:97-112 | a new animator has no current clip, an empty queue and a valid state |
| `Playback.SetAnimation` | src/core/petAnimator.ts:178-210 | keeps the state valid; an unknown name with nothing to load changes nothing; a known name is never reloaded; with `applyNow` the clip becomes current with `isLooping = isLoop ?? false` and index, accumulator and baseline 0, queue unchanged; otherwise exactly that clip is appended to the queue and nothing else changes |
| `Playback.Elapse` | src/core/petAnimator.ts:390-397 | the baseline becomes the tick time; with no baseline (0) nothing is credited, otherwise exactly the time since the baseline is added; nothing else changes and validity is kept |
| `Playback.Finished` | src/core/petAnimator.ts:409-413 | in a valid state: the current clip is one-shot and showing its last frame, and only then |
| `Playback.Advance` | src/core/petAnimator.ts:426-430 | the frame loop ends with the accumulator below the frame duration and the index within the clip |
| `Playback.HandOff` | src/core/petAnimator.ts:412-424 | replacing a finished one-shot clip keeps the state valid |
| `Playback.Tick` | src/core/petAnimator.ts:387-434 | a tick keeps the state valid, leaves the accumulator below the frame duration whenever a clip is current, and leaves the baseline at the tick time (or 0 after an `idle` reset) |
| `PlaybackLemmas.AdvanceClosedForm` | src/core/petAnimator.ts:426-430 | with k = accumulator / frameDuration, the loop ends with index (old + k) mod n and accumulator mod frameDuration |
| `PlaybackLemmas.AdvanceNegative` | src/core/petAnimator.ts:426-430 | a negative accumulator (the clock went backwards) advances nothing |
| `PlaybackLemmas.TickConsumesQueueInOrder` | src/core/petAnimator.ts:412-418 | a tick leaves the queue alone or removes exactly its head, which becomes current (FIFO) |
| `PlaybackLemmas.TickWithoutHandOff` | src/core/petAnimator.ts:409-430 | an unfinished or looping clip stays current, the queue is untouched, and the index moves by the whole frame durations credited |
| `PlaybackLemmas.TickDequeuesHead` | src/core/petAnimator.ts:416-423 | a finished one-shot clip gives way to the queue head at index 0, without resetting the accumulator, which then advances the new clip |
| `PlaybackLemmas.TickFallsBackToIdle` | src/core/petAnimator.ts:416-421 | with an empty queue a finished one-shot clip becomes looping `idle` with index, accumulator and baseline reset |
| `PlaybackLemmas.TickStopsIff` | src/core/petAnimator.ts:399-433 | no next tick is requested exactly when a finished one-shot clip has no queue, no `idle` is registered and a frame is due |
| `PlaybackLemmas.FirstTickAfterApply` | src/core/petAnimator.ts:390-397 | the first tick after `applyNow` only sets the time baseline: nothing is credited and the clip stays at frame 0 |
| `PlaybackLemmas.LoopingTickTracksClock` | src/core/petAnimator.ts:387-434 | one tick keeps a looping clip at frame ((t - t0) / frameDuration) mod n with the remainder in the accumulator |
| `PlaybackLemmas.RunTicks` | src/core/petAnimator.ts:387-434 | any run of ticks keeps the playback state valid |
| `PlaybackLemmas.LoopingClipFollowsWallClock` | src/core/petAnimator.ts:387-434 | over ticks at non-decreasing times, a looping clip follows the wall clock and the queue is never touched |
| `PlaybackLemmas.AppliedLoopFollowsWallClock` | src/core/petAnimator.ts:201-206 | a looping clip applied at once shows frame ((t - t0) / frameDuration) mod n at every later tick t, where t0 is the first tick |
| `PlaybackLemmas.TickWithoutClipAppliesIdle` | src/core/petAnimator.ts:399-407 | a tick with no current clip and `idle` registered applies looping `idle` at frame 0 with accumulator and baseline reset, the queue and registry untouched, and requests the next frame |
| `PlaybackLemmas.TickCreditsWholeGap` | src/core/petAnimator.ts:390-397 | with a baseline set, the tick credits the whole gap since it: an unfinished clip moves by (accumulator + gap) / frameDuration frames mod n and keeps the remainder |
| `PlaybackLemmas.IdleScenario` | src/core/petAnimator.ts:399-430 | from no current clip, with three-frame `idle` registered and the default 120: the tick at 1000 applies `idle` at frame 0; ticks at 1250, 1500 and 1750 show frames 0, 2 and 1 |
| `Animator.RestartAfterPause` | src/core/petAnimator.ts:366-397 | `stop` then `start` then a tick: the tick credits all the time since the last tick before the stop, as `Playback.Tick` from the old state says, and the frame moves by the whole gap |
| `Animator.ReleaseChoice` | src/core/petAnimator.ts:319-360 | after a drag: one-shot `down`; otherwise pinch/head → `touchHead`, body → `touchBody1`/`touchBody2` by the coin, no region → nothing; never a looping clip |
| `Animator.TapOnBodyPlaysTouchBody` | src/core/petAnimator.ts:336-342 | a release inside the body box without a drag always selects one of the two body clips |
| `Animator.PetAnimator.constructor` | src/core/petAnimator.ts:124-132 | frame duration defaults to 120; the playback state starts empty; no listeners, not running, no timers |
| `Animator.PetAnimator.LoadAnimation` | src/core/petAnimator.ts:134-176 | decoded frames are registered under the name, replacing an earlier registration; a decode failure registers nothing; nothing else changes |
| `Animator.PetAnimator.SetAnimation` | src/core/petAnimator.ts:178-210 | the new playback fields are exactly `Playback.SetAnimation` of the old ones; gesture and lifecycle fields are untouched |
| `Animator.PetAnimator.Start` | src/core/petAnimator.ts:233-372 | listeners are registered once, the loop runs, a frame is requested only if it was not running; playback untouched |
| `Animator.PetAnimator.Stop` | src/core/petAnimator.ts:374-385 | listeners revoked, not running, the pending frame cancelled if it was running; playback and timers untouched |
| `Animator.PetAnimator.ElapseTo` | src/core/petAnimator.ts:390-397 | credits the time since the last tick, with the baseline taken from the first tick after a reset |
| `Animator.PetAnimator.HandOffIfFinished` | src/core/petAnimator.ts:409-424 | a finished one-shot clip is replaced as `Playback.HandOff` says; otherwise nothing changes |
| `Animator.PetAnimator.AdvanceFrames` | src/core/petAnimator.ts:426-430 | the while loop ends with index and accumulator as `Playback.Advance` gives |
| `Animator.PetAnimator.Tick` | src/core/petAnimator.ts:387-434 | when stopped nothing happens; otherwise the new playback fields are `Playback.Tick` of the old ones and a next frame is requested exactly when the tick does not throw |
| `Animator.PetAnimator.RegionAt` | src/core/petAnimator.ts:212-219 | no region while nothing is registered (the hit boxes are unset); `checkBody` otherwise |
| `Animator.PetAnimator.MouseDown` | src/core/petAnimator.ts:257-296 | the drag flag is cleared; a press on the body arms one more timer and makes it the clearable one; other presses arm nothing |
| `Animator.PetAnimator.LongPressFires` | src/core/petAnimator.ts:264-288 | the fired timer is disarmed; `rise` is applied looping as `Playback.SetAnimation` says; dragging starts if `rise` is registered afterwards |
| `Animator.PetAnimator.MouseUp` | src/core/petAnimator.ts:317-365 | without a drag the clearable timer is cleared; the clip `ReleaseChoice` selects is applied as `Playback.SetAnimation` says; the drag flag ends false |
| `LpsText.TrimStart` | script/lps-core/LPSDocument.cjs:20 | a suffix of the input whose dropped characters are all whitespace and which does not start with whitespace |
| `LpsText.TrimEnd` | script/lps-core/LPSDocument.cjs:20 | a prefix of the input whose dropped characters are all whitespace and which does not end with whitespace |
| `LpsText.Trim` | script/lps-core/LPSDocument.cjs:20 | the result is a piece of the input with only whitespace before and after it, has no whitespace at either end, and is empty exactly when the input is all whitespace |
| `LpsText.StartsWith` | script/lps-core/LPSDocument.cjs:23-24 | `startsWith` holds exactly when the string is the prefix followed by the rest |
| `LpsText.EndsWith` | script/lps-core/LPSDocument.cjs:39 | `endsWith` holds exactly when the string is the rest followed by the suffix |
| `LpsText.Includes` | script/lps-core/LPSDocument.cjs:52 | an included separator is no longer than the string (its meaning is `IncludesIffOccurs`) |
| `LpsText.IncludesIffOccurs` | script/lps-core/LPSDocument.cjs:68 | `includes` holds exactly when the separator occurs at some position |
| `LpsText.IndexOf` | script/lps-core/LPSDocument.cjs:52 | a found position is an occurrence of the separator |
| `LpsText.IndexOfIsFirst` | script/lps-core/LPSDocument.cjs:52 | the found position is the first occurrence, and nothing is found only when there is none |
| `LpsText.Split` | script/lps-core/LPSDocument.cjs:48 | splitting by a separator gives at least one piece |
| `LpsText.Before` | script/lps-core/LPSDocument.cjs:49 | the text before the first separator is a prefix without the separator |
| `LpsText.After` | script/lps-core/LPSDocument.cjs:50 | the text after the first separator is a suffix, empty when there is no separator |
| `LpsText.Join` | script/lps-core/LPSDocument.cjs:50 | no parts give `""`; otherwise the result starts with the first part, ends with the last, and with two or more parts the separator follows the first part |
| `LpsText.JoinSplit` | script/lps-core/LPSDocument.cjs:48-50 | joining the pieces of a split with the same separator gives back the string |
| `LpsText.SplitHead` | script/lps-core/LPSDocument.cjs:49 | the first piece is the text before the first separator |
| `LpsText.SplitTail` | script/lps-core/LPSDocument.cjs:50 | re-joining all pieces but the first gives everything after the first separator, later separators kept |
| `LpsText.SplitPiecesAreFree` | script/lps-core/LPSDocument.cjs:48 | no piece contains the separator |
| `LpsText.SplitLines` | script/lps-core/LPSDocument.cjs:16 | as many lines as line-feed pieces, the last line being the last piece |
| `LpsText.SplitLinesPieces` | script/lps-core/LPSDocument.cjs:16 | `split(/\r?\n/)`: each line is its line-feed piece less one trailing carriage return (none dropped from the last), and no line holds a line feed |
| `LpsText.TrimIgnoresCarriageReturn` | script/lps-core/LPSDocument.cjs:16-20 | the carriage return the line split drops would have been trimmed anyway |
| `Lines.NewLine` | script/lps-core/Line.cjs:9-16 | a new line has no children and no metadata; with no arguments its name and info are empty and its level 0 |
| `Lines.Add` | script/lps-core/Line.cjs:22-25 | the child becomes the last child, earlier children and all other fields are unchanged, and the subtree grows by the child's size |
| `Lines.FirstIndex` | script/lps-core/Line.cjs:34-36 | the position of the first child with that name, or none if no child has it |
| `Lines.Find` | script/lps-core/Line.cjs:34-36 | a found line is a child with that name; nothing is found exactly when no child has the name |
| `Lines.Named` | script/lps-core/Line.cjs:43-45 | the kept lines are exactly those with the name, and there are at most as many |
| `Lines.NamedCounts` | script/lps-core/Line.cjs:43-45 | each line with the name is kept as often as it occurs; no other line is kept |
| `Lines.NamedAppend` | script/lps-core/Line.cjs:43-45 | filtering distributes over concatenation, so the original order is kept |
| `Lines.FindAll` | script/lps-core/Line.cjs:43-45 | exactly the children with that name, at most as many as there are children |
| `Lines.FindIsFirstOfFindAll` | script/lps-core/Line.cjs:34-45 | `find` finds nothing exactly when `findAll` is empty, and otherwise returns `findAll`'s first element |
| `Lines.Get` | script/lps-core/Line.cjs:53-56 | the info of the first child with the name, or the default when there is none |
| `Lines.FindAfterAdd` | script/lps-core/Line.cjs:22-36 | after `add`, an earlier match is still found first; the new child is found only if nothing earlier matches |
| `Lines.Tabs` | script/lps-core/Line.cjs:64 | exactly n tab characters |
| `Lines.Serialize` | script/lps-core/Line.cjs:63-70 | the output is at least as long as the node's own line: indentation, name, `=`, info and a line feed |
| `Lines.SerializeOwnLine` | script/lps-core/Line.cjs:64-65 | the output starts with the node's own line: `level` tabs, the name, `=`, the info and a line feed |
| `Lines.SerializeAll` | script/lps-core/Line.cjs:66-68 | serialising a list of lines is empty exactly when the list is |
| `Lines.ToString` | script/lps-core/Line.cjs:63-70 | the loop builds the node's `name=info` line at its indentation, then each child at the next level, in order (`Serialize`) |
| `Lines.HeaderIsOneLine` | script/lps-core/Line.cjs:64-65 | a node's own output is exactly one line when its name and info hold no line feed |
| `Lines.OneLinePerNode` | script/lps-core/Line.cjs:63-70 | the serialisation holds exactly one line feed per node of the subtree |
| `Lines.OneLinePerNodeAll` | script/lps-core/Line.cjs:66-68 | serialising a list of lines gives one line feed per node in all their subtrees |
| `LpsDocument.MetaEntry` | script/lps-core/LPSDocument.cjs:57-61 | a segment defines an entry iff its key (text before the first `#`) is non-empty and it has a `#`; the value is the text between the first and second `#` |
| `LpsDocument.Metadata` | script/lps-core/LPSDocument.cjs:55-63 | every key is non-empty, and neither a key nor its value holds a `#` |
| `LpsDocument.MetadataKeys` | script/lps-core/LPSDocument.cjs:55-63 | a key is in the metadata exactly when some segment defines it |
| `LpsDocument.MetadataLastWins` | script/lps-core/LPSDocument.cjs:55-63 | later segments win: a key maps to the value its last defining segment gives |
| `LpsDocument.Apply` | script/lps-core/LPSDocument.cjs:60 | one segment removes no key and adds or changes at most the key before its first `#`; its exact value is given by `ApplyBySplit` and `MetadataLastWins` |
| `LpsDocument.ApplyBySplit` | script/lps-core/LPSDocument.cjs:57-61 | an empty segment changes nothing; otherwise the first `#` piece is set to the second when the first is non-empty and a second exists |
| `LpsDocument.ReadEntry` | script/lps-core/LPSDocument.cjs:56-62 | one pass of the metadata loop body computes exactly `Apply` of the segment |
| `LpsDocument.ReadMetadata` | script/lps-core/LPSDocument.cjs:55-63 | the loop over the segments after the first `:|` builds exactly `Metadata` of them |
| `LpsDocument.NameAndInfo` | script/lps-core/LPSDocument.cjs:64-71 | the name is no longer than the block; without `#` the name is the trimmed block and the info the text after `=` |
| `LpsDocument.HeaderOf` | script/lps-core/LPSDocument.cjs:52-75 | no `:|` gives no metadata; metadata keys are non-empty and free of `#`; without `:|` and `#` the name is the trimmed part and the info the text after `=` |
| `LpsDocument.ParseHeader` | script/lps-core/LPSDocument.cjs:44-78 | a line without `:|` has no metadata; metadata keys are non-empty and neither keys nor values hold `#` |
| `LpsDocument.NameAndInfoByCuts` | script/lps-core/LPSDocument.cjs:64-67 | name = trimmed text before the first `#`; info = text after it, or the fallback when that is empty |
| `LpsDocument.HeaderOfByCuts` | script/lps-core/LPSDocument.cjs:52-75 | the three branches agree with one rule applied to the text before the first `:|` |
| `LpsDocument.HeaderByFirstOccurrences` | script/lps-core/LPSDocument.cjs:48-75 | name, info and metadata of a line, stated by first occurrences of `=`, `:|` and `#` |
| `LpsDocument.PlainHeader` | script/lps-core/LPSDocument.cjs:72-75 | without `#` and `:|`: the name is the trimmed text before the first `=`, the info everything after it |
| `LpsDocument.EmptyHashInfoFallsBack` | script/lps-core/LPSDocument.cjs:66-71 | an empty info after `#` falls back to the text after the first `=` |
| `LpsDocument.ReadHeader` | script/lps-core/LPSDocument.cjs:44-78 | the per-line split computes exactly `ParseHeader` |
| `LpsDocument.Classify` | script/lps-core/LPSDocument.cjs:19-42 | skipped iff trimmed empty or starting with `//` (the `///` test is subsumed); `}` closes; other lines open a block iff they end in `{` |
| `LpsDocument.EntryOf` | script/lps-core/LPSDocument.cjs:38-42 | a content line is always an entry, and it opens a block exactly when it ends in `{` |
| `LpsDocument.NodeOf` | script/lps-core/LPSDocument.cjs:77-78 | the new node is a level-0 leaf carrying the line's name, info and metadata |
| `LpsDocument.AddAt` | script/lps-core/LPSDocument.cjs:81 | the node at the path gains the child last; the tree grows by the child; the root's own fields stay (the rest of the tree: `AddAtFrame`, `AddAtOnPath`) |
| `LpsDocument.AddAtFrame` | script/lps-core/LPSDocument.cjs:81 | every node that is neither the parent nor one of its ancestors is unchanged and still at the same path |
| `LpsDocument.AddAtOnPath` | script/lps-core/LPSDocument.cjs:81 | the parent and its ancestors keep name, info, level and metadata; the ancestors keep their number of children |
| `LpsDocument.AddAtKeepsPaths` | script/lps-core/LPSDocument.cjs:81 | adding a child keeps every open block reachable |
| `LpsDocument.NodeAtChild` | script/lps-core/LPSDocument.cjs:84-86 | extending a path by a child position reaches that child |
| `LpsDocument.Pop` | script/lps-core/LPSDocument.cjs:32-35 | `pop` removes the innermost block, and leaves an empty stack empty |
| `LpsDocument.AddLine` | script/lps-core/LPSDocument.cjs:81-86 | the innermost open block gains the node as its last child; exactly one node is added; every node off the way to that block is unchanged, and the block and its ancestors keep their own fields; an opening line becomes the new innermost block |
| `LpsDocument.Step` | script/lps-core/LPSDocument.cjs:19-86 | skipped lines change nothing; `}` pops; a content line fails exactly when no block is open, and otherwise is `AddLine` |
| `LpsDocument.ParseEntry` | script/lps-core/LPSDocument.cjs:38-86 | splitting a content line and adding it gives `None` exactly when no block is open, and otherwise `AddLine` of its node |
| `LpsDocument.ParseLine` | script/lps-core/LPSDocument.cjs:20-86 | one pass of the loop body computes exactly `Step` of the line |
| `LpsDocument.ParseLines` | script/lps-core/LPSDocument.cjs:19-87 | the loop over the text lines computes exactly `Run`: it stops at the first line that throws |
| `LpsDocument.Run` | script/lps-core/LPSDocument.cjs:19-87 | after any prefix of lines every open block is reachable in the tree |
| `LpsDocument.RunSucceedsIffSurvives` | script/lps-core/LPSDocument.cjs:29-35 | the parse throws exactly when, by brace structure alone, a content line comes after a `}` too many |
| `LpsDocument.NoCloseNeverFails` | script/lps-core/LPSDocument.cjs:32-35 | a text without `}` lines always parses |
| `LpsDocument.OneNodePerEntry` | script/lps-core/LPSDocument.cjs:77-86 | a successful parse adds exactly one node per content line |
| `LpsDocument.Scan` | script/lps-core/LPSDocument.cjs:99-112 | counting adds at most one level per character |
| `LpsDocument.Level` | script/lps-core/LPSDocument.cjs:94-115 | the level is at most the line length |
| `LpsDocument.LevelStopsAtText` | script/lps-core/LPSDocument.cjs:108-111 | counting stops at the first character that is neither a tab nor a space |
| `LpsDocument.TabAddsALevel` | script/lps-core/LPSDocument.cjs:100-102 | a tab adds one level and restarts the space count |
| `LpsDocument.SpacesAddLevels` | script/lps-core/LPSDocument.cjs:103-107 | n spaces after c pending spaces add (c + n) / 4 levels |
| `LpsDocument.LpsDocument.constructor` | script/lps-core/LPSDocument.cjs:4-9 | no flat lines; the root is named `root` with empty info, level -1, no children and no metadata |
| `LpsDocument.LpsDocument.Parse` | script/lps-core/LPSDocument.cjs:15-88 | the new root and the outcome are exactly those of `Run` over the `\r?\n` lines from a stack holding only the root; the flat line list is untouched |
| `LpsDocument.LpsDocument.CalculateLevel` | script/lps-core/LPSDocument.cjs:94-115 | the counting loop returns exactly `Level` of the line |
| `LpsDocument.LpsDocument.Find` | script/lps-core/LPSDocument.cjs:118-120 | the root's `find`; nothing exactly when no top-level line has the name |
| `LpsDocument.LpsDocument.FindAll` | script/lps-core/LPSDocument.cjs:121-123 | the root's `findAll`: exactly the top-level lines with the name |
| `LpsDocument.LpsDocument.Get` | script/lps-core/LPSDocument.cjs:124-126 | the root's `get`: the info of the first top-level match, or the default |
| `LpsDocument.LpsDocument.ToString` | script/lps-core/LPSDocument.cjs:132-134 | the top-level lines serialised at level 0 and concatenated, one line feed per node below the root |
| `LpsDocument.ConcatSerialized` | script/lps-core/LPSDocument.cjs:132-134 | joining the serialised lines with `""` equals serialising them together |

## Left out

- `draw` (petAnimator.ts:436-463): it scales and centres the image in floating point and calls the canvas API.
- Image decoding and the asset tables built by `import.meta.glob`. A load is given as the decoded frames, or as a decode failure in which `Promise.all` rejects and nothing is registered.
  - `loadAnimation` is modelled only as that registration.
  - `risePoint` and the `console` messages are left out.
- `Animator.PetAnimator.LoadAnimation`: the hit boxes it assigns are not state of the model. They are fixed constants, and "assigned yet" is read as "something is registered", since both happen in the same step.
- Asynchrony. A `setAnimation` that has to load is modelled as one atomic step: the load, then the apply. In the application other events can run while the images decode. The release handler does not await its `setAnimation`, so the drag flag is cleared before such a clip appears.
- `requestAnimationFrame`, `cancelAnimationFrame`, `setTimeout`, `clearTimeout`, `AbortController` and DOM event wiring. They are replaced by:
  - the `isRunning`, `framePending` and `listening` flags;
  - the timer counters `armedTimers` and `latestArmed`;
  - the explicit events `Tick`, `MouseDown`, `LongPressFires` and `MouseUp`.
- Window `mousemove` dragging, drag anchors, `SCALE_FACTOR` positioning and the `parseInt` of CSS positions: floating-point and DOM style values.
- `setIgnoreMouseEvent` on `mouseenter`/`mouseleave`: a call into the host window.
- Fractional `requestAnimationFrame` times: time is whole units, and a timestamp of 0 reads as "no baseline yet", as in the source.
- `Animator.PetAnimator.Tick`: it does not require a pending frame request, so it is also stated for ticks the render loop would never deliver (the environment is over-approximated); the contract holds for those too.
- Empty asset tables, which would register a clip with no frames. The frame loop would then compute `% 0` (NaN). Loads are required to yield at least one frame.
- `LpsText.Includes`: its own contract states only that a found separator fits in the string. The equivalence with an occurrence is the lemma `IncludesIffOccurs`, kept out of the contract because every use of `includes` in the parser would carry it.
- `LpsDocument.Apply`: its own contract is a frame (which keys can change). The value it stores is stated by `ApplyBySplit` and, over a whole list of segments, by `MetadataKeys` and `MetadataLastWins`.
- `Lines.Serialize`: its own contract is a length bound; that the output starts with the node's own line is the lemma `SerializeOwnLine`.
- `Playback.HandOff`: its contract states only that the state stays valid. What the hand-off does is stated by `TickDequeuesHead`, `TickFallsBackToIdle` and `TickConsumesQueueInOrder`.
- `LpsDocument.LpsDocument.Parse`: the in-place update is not modelled. The loop (`ParseLines`) works on a local cursor, and the root is stored once at the end, including when a line throws. That root is the tree the source has built in place by then.
- The `parent` back-pointer of `Line` (set by `add`): the tree is a value, and parenthood is the path structure.
- The `__proto__` metadata key, which a plain JavaScript object treats specially.
- `Line.toJSON`, `script/runParse.cjs` (file input/output and JSON output), the React component, the Electron main and preload processes, and the weather HTTP client.
- `parse` is not inverted. `toString` writes neither braces nor metadata, so no round trip between the two is claimed.
- `_calculateLevel` iterates over code points; strings here are sequences of code points, so this agrees. Its result is not used by `parse`, which gives every new line level 0.
