# Nova dialogue core in Dafny

Nova is a Unity visual-novel engine. This project models the logic that drives
its dialogue box. The model has four parts.

- **The transition engine** (`NovaAnimation`). This is a registry with one
  animation entry per property ID. Each entry holds a start, a target, a
  duration and an elapsed time. Every live entry has one per-frame task, which
  either interpolates the property towards its target or, once the duration has
  elapsed, writes the exact target and removes the entry. `Stop` does not
  write anything itself: it pushes the elapsed time past the duration, so the
  next frame finalises the value.
- **The character-paced text reveal** (`TextAnimator` and its nested
  `TextAppendingBuffer`). The buffer is a string plus a cursor over the
  characters already consumed, and it compacts the consumed prefix. The
  animator moves characters from the buffer into the revealed text. It moves
  them one per `CharacterDisplayDuration` of accumulated frame time, or all at
  once on `Flush` or when `NeedAnimation` is off.
- **The dialogue progression state machine** (`DialogueBoxController`).
  - It has three states: `Normal`, `Auto` and `Skip`.
  - The `State` setter runs an exit action, then an enter action, and raises
    the matching `UnityEvent`s.
  - There is at most one scheduled step. It waits for
    `timeAfterDialogueChange` to reach its delay, pauses one frame, and then
    steps the story or falls back to `Normal`.
  - The controller also handles branches and pointer clicks, and shows each
    new line in `Overwrite` or `Append` mode.
- **The mode registries** (`DialogueBoxesManager` and `DialogueBoxManager`).
  Each maps the lower-cased controller type to a controller. `Start` picks the
  default mode. The `Mode` setter deactivates the old controller and activates
  the new one; a switch to an unregistered mode throws and changes nothing.

Each part comes in two layers:

- **Value-level functions** with the properties the code promises, proved as
  lemmas: modules `Animation`, `TextAnimation`, `DialogueBoxModel`,
  `DialogueBoxProperties` and `ModeRegistry`.
- **Classes with mutable fields**, whose methods are proved to move their
  state exactly as those functions say: `Animation.NovaAnimation`,
  `TextAnimation.TextAppendingBuffer`, `TextAnimation.TextAnimator`,
  `DialogueBox.DialogueBoxController` and `DialogueBoxManagers.Manager`.

Time and animated values are `real`. A frame is an explicit call with its
delta time `dt`, which stands for `Time.deltaTime`. The story collaborator is
reduced to two things:

- `canStepForward`, passed in when the scheduled step fires;
- a `StepRequested` entry in the box's event log, which stands for
  `gameState.Step()`.

Module `Strings` holds ASCII-only `Trim` and `ToLower`. Module `Optional`
holds `Option`, `Result` and the .NET exceptions the code can throw.

Modelling choices, and the places where the code does something other than
its own comments or design say; the model follows the code:

- **Unity's `StartCoroutine`** runs a coroutine up to its first `yield` at
  once. So `RegisterTransition` of a new ID runs the first task iteration in
  the same call, and takes the frame's `dt`. A new entry with a duration of 0
  or less snaps to its target at once. A retargeted live entry snaps on the
  next `Tick`.
- **Starting a scheduled step** likewise runs it to its first suspension: the
  waiting loop, or the one-frame pause when the delay has already elapsed.
- **`WaitForSeconds`** is modelled as the waiting loop re-checking its
  condition once per frame.
- **Frame order.** Within a frame, the box's `Update` runs before its
  coroutine resumes.
- **Stopping.** The doc comments of `NovaAnimation.Stop` say the value is set
  "immediately". The code only marks the entry, and the next frame writes the
  target. `StoppedFinishesNext` and `StopAllThenTickEmpties` state this.
- **`TextAnimator.Set`** clears only the revealed text. Text still waiting in
  the buffer is kept, ahead of the new value (`SetKeepsWaitingText`).
- **`ParseDialogueText`** cuts the line at `m.Length`, not at
  `m.Index + m.Length`, so the index of the match plays no part.
- **Assertions.** `UnityEngine.Assertions.Assert` only logs, so a failed
  assertion is an `AssertionFailed` event and execution goes on.
- **A null `currentDialogueText`.** Entering `Auto` before the first line
  dereferences the null text in `GetAutoScheduledTime`. The model records
  that as a `NullReferenceThrown` event. The state is already `Auto` at that
  point, nothing is scheduled, and `AutoModeStarts` is not raised.
- **Dictionary order.** A .NET `Dictionary` enumerates its entries in
  insertion order here, because no entry is ever removed. The registry keeps
  its keys as a sequence in that order.
- **One manager class for both files.** In modelled behaviour the two
  manager files differ only in what `Start` records as the mode. (They also
  differ in their class names, in the visibility of the game-object list, and
  in the Lua binding of `DialogueBoxesManager.Awake`, listed under
  "Left out".)
  - `DialogueBoxesManager` records the lower-cased key.
  - `DialogueBoxManager` records `controller.Type` unchanged (line 51).

  `DialogueBoxManagers.Manager` covers both, selected by `startRecord`.
  `MixedCaseModeUnregistered` and `MixedCaseModeLocksSetter` show what the
  second choice leads to. With a type that is not lower case,
  `CurrentDialogueBoxController` finds nothing, and every later `Mode` switch
  throws and changes nothing: `KeyNotFoundException` at the lookup of the old
  mode when the target is registered, `FormatException` when it is not.
  Recording the key, `DialogueBoxesManager` keeps its mode registered
  (`StartKeepsModeRegistered`, `SetModeKeepsModeRegistered`), so there the
  lookup never throws.
- **An unregistered mode throws.** The setter logs an unknown mode with
  `Debug.LogFormat("Nova: Invalid dialogue box mode {}", value)`
  (DialogueBoxesManager.cs:82, DialogueBoxManager.cs:78). `Debug.LogFormat`
  formats with `String.Format`, and the format item `{}`, which has no index,
  makes it throw `FormatException`. So the setter leaves before it
  deactivates the old controller or records the mode. This holds with Unity's
  default logger, which lets `LogType.Log` messages through to the formatting
  step. The model follows the code and returns the `Format` fault with the
  state unchanged.
- **Exceptions in `Awake`.** An exception thrown part-way through `Awake`
  leaves the entries added so far in the dictionary. The model returns that
  partial registry together with the exception.

## Model

| member | source | states |
|---|---|---|
| Animation.Clamp01 | Assets/Nova/Core/NovaAnimation.cs:46 | the result lies in [0,1] and equals its argument when that is already in [0,1] |
| Animation.Lerp | Assets/Nova/Core/NovaAnimation.cs:47 | the interpolant lies between start and target, and is the start at t <= 0 and the target at t >= 1 |
| Animation.SetTransition | Assets/Nova/Core/NovaAnimation.cs:19-25 | restarts an entry from the given value towards the target with zero elapsed time; RetargetContinuesFromCurrent states that the first iteration then continues from that value, and RegisterTransition uses it for both branches |
| Animation.StopEntry | Assets/Nova/Core/NovaAnimation.cs:27-31 | a stopped entry has its elapsed time past its duration; start, target and duration are unchanged |
| Animation.AnimationStep | Assets/Nova/Core/NovaAnimation.cs:36-50 | one loop iteration finishes exactly when elapsed >= duration, and then writes exactly the target; otherwise the duration is positive (no division by zero), the value lies between start and target, and the elapsed time grows by dt |
| Animation.Run | Assets/Nova/Core/NovaAnimation.cs:34-51 | the outcome of resuming one task once per frame; RunReachesTarget (exact snap) and RunStaysBetween (bounds) state its properties |
| Animation.RunReachesTarget | Assets/Nova/Core/NovaAnimation.cs:36-50 | once the frame times add up to the duration, the task ends with exactly the target value |
| Animation.RunStaysBetween | Assets/Nova/Core/NovaAnimation.cs:46-48 | over any run of frames every written value lies between the start and the target |
| Animation.RetargetContinuesFromCurrent | Assets/Nova/Core/NovaAnimation.cs:19-25 | after SetTransition from the current value, the first iteration writes that current value again (no jump back) when the duration is positive, and snaps to the target otherwise |
| Animation.StoppedFinishesNext | Assets/Nova/Core/NovaAnimation.cs:27-44 | the iteration after Stop writes the target and finishes |
| Animation.TickEntries | Assets/Nova/Core/NovaAnimation.cs:38-48 | after one frame the registry keeps no new key, stays well timed, and has lost exactly the entries whose elapsed time had reached their duration |
| Animation.StopAllEntries | Assets/Nova/Core/NovaAnimation.cs:120-126 | stopping every entry keeps the key set and puts every entry past its duration |
| Animation.StopAllThenTickEmpties | Assets/Nova/Core/NovaAnimation.cs:120-126 | the frame after Stop() empties the registry |
| Animation.SurvivorsSubset | Assets/Nova/Core/NovaAnimation.cs:36-50 | the tasks still running after a frame are exactly those whose entry is still registered, with distinct IDs |
| Animation.TickPrefixComplete | Assets/Nova/Core/NovaAnimation.cs:36-50 | resuming all running tasks one after the other yields the registry TickEntries describes |
| Animation.DistinctObjects | Assets/Nova/Core/NovaAnimation.cs:53-54 | tasks with distinct IDs animate distinct property objects |
| Animation.AnimatedProperty.constructor | Assets/Nova/Core/NovaAnimation.cs:70 | a property with the given ID and value |
| Animation.NovaAnimation.constructor | Assets/Nova/Core/NovaAnimation.cs:53-54 | an empty registry with no running task |
| Animation.NovaAnimation.ResumeTask | Assets/Nova/Core/NovaAnimation.cs:36-50 | one resumption writes the value AnimationStep gives and removes the entry when finished, or stores the advanced entry |
| Animation.NovaAnimation.RegisterTransition | Assets/Nova/Core/NovaAnimation.cs:67-81 | a live ID is retargeted in place from the property's current value with no new key or task; a new ID gets an entry and a task whose first iteration runs at once; one task per entry is kept |
| Animation.NovaAnimation.ResumeAll | Assets/Nova/Core/NovaAnimation.cs:36-50 | resuming the given tasks in order gives each property its AnimationStep value and returns the tasks that continue |
| Animation.NovaAnimation.Tick | Assets/Nova/Core/NovaAnimation.cs:36-50 | one frame moves the registry to TickEntries, keeps the surviving tasks in order, writes each property its step value, and keeps one task per entry |
| Animation.NovaAnimation.StopId | Assets/Nova/Core/NovaAnimation.cs:93-100 | a live entry is stopped and nothing else changes; an unknown ID changes nothing |
| Animation.NovaAnimation.StopProperty | Assets/Nova/Core/NovaAnimation.cs:112-115 | as StopId for the property's ID |
| Animation.NovaAnimation.StopAll | Assets/Nova/Core/NovaAnimation.cs:120-126 | every entry is stopped, keys and tasks unchanged |
| Animation.NovaAnimation.OnDestroy | Assets/Nova/Core/NovaAnimation.cs:128-131 | the same state change as StopAll |
| TextAnimation.Rest | Assets/Nova/Scripts/TextAnimator.cs:138-142 | the do-while of the reveal loop, as the characters it moves and the time it leaves; RestBounds and RestLeft state its bounds and exact remainder |
| TextAnimation.RestBounds | Assets/Nova/Scripts/TextAnimator.cs:138-142 | the reveal loop moves at most the pending characters, leaves a non-negative remainder, stops early only below one duration, and drains everything when the duration is not positive |
| TextAnimation.Drain | Assets/Nova/Scripts/TextAnimator.cs:138-142 | the do-while loop moves at least one character and at most all of them, and stops early only when less than one duration is left |
| TextAnimation.DrainLeft | Assets/Nova/Scripts/TextAnimator.cs:141 | the time left is the accumulated time less one duration per moved character |
| TextAnimation.UpdateSpec | Assets/Nova/Scripts/TextAnimator.cs:120-145 | one frame of the reveal; UpdateConserves, UpdateIdle, UpdateWithoutAnimation and UpdateAnimated state what it does, and TextAnimator.Update is proved to follow it |
| TextAnimation.SetSpec | Assets/Nova/Scripts/TextAnimator.cs:89-94 | Set on the reveal state; SetKeepsWaitingText states that the revealed text is emptied and the waiting text kept ahead of the value |
| TextAnimation.AppendSpec | Assets/Nova/Scripts/TextAnimator.cs:96-99 | Append on the reveal state; FirstCharacterAfterIdle and LineDisplay use it, and TextAnimator.Append is proved to follow it |
| TextAnimation.FlushSpec | Assets/Nova/Scripts/TextAnimator.cs:104-110 | Flush on the reveal state; FlushReveals states that all waiting text is revealed and that it is idempotent |
| TextAnimation.UpdateConserves | Assets/Nova/Scripts/TextAnimator.cs:120-145 | a frame keeps revealed text followed by waiting text unchanged, and revealed text only grows |
| TextAnimation.UpdateWithoutAnimation | Assets/Nova/Scripts/TextAnimator.cs:130-134 | with NeedAnimation off and text waiting, a frame reveals all of it |
| TextAnimation.UpdateIdle | Assets/Nova/Scripts/TextAnimator.cs:122-126 | with nothing waiting, a frame only resets the timer to one full duration |
| TextAnimation.UpdateAnimated | Assets/Nova/Scripts/TextAnimator.cs:136-144 | below one duration nothing is revealed; from one duration on at least one character is, the remainder is exact and non-negative, and text stays waiting only below one duration |
| TextAnimation.FirstCharacterAfterIdle | Assets/Nova/Scripts/TextAnimator.cs:122-142 | text appended after an idle frame shows its first character on the next animated frame |
| TextAnimation.SetKeepsWaitingText | Assets/Nova/Scripts/TextAnimator.cs:89-94 | Set empties the revealed text and keeps the waiting text ahead of the new value |
| TextAnimation.FlushReveals | Assets/Nova/Scripts/TextAnimator.cs:104-110 | Flush reveals all waiting text and is idempotent |
| TextAnimation.RevealFramesComplete | Assets/Nova/Scripts/TextAnimator.cs:120-145 | frames of at least one duration each reveal all waiting text within as many frames as it has characters |
| TextAnimation.RevealFramesIdle | Assets/Nova/Scripts/TextAnimator.cs:122-126 | frames with nothing waiting reveal nothing |
| TextAnimation.TextAppendingBuffer.Text | Assets/Nova/Scripts/TextAnimator.cs:35-38 | the unconsumed text, the part after the cursor; the ensures of IsEmpty, Next, Append and TryCleanUpUnused state how each changes it |
| TextAnimation.TextAppendingBuffer.IsEmpty | Assets/Nova/Scripts/TextAnimator.cs:40-43 | empty exactly when the unconsumed text is empty |
| TextAnimation.TextAppendingBuffer.constructor | Assets/Nova/Scripts/TextAnimator.cs:22-26 | the buffer holds the initial value, cursor 0, with the given threshold |
| TextAnimation.TextAppendingBuffer.Next | Assets/Nova/Scripts/TextAnimator.cs:28-33 | returns the first unconsumed character and drops it from the unconsumed text |
| TextAnimation.TextAppendingBuffer.Clear | Assets/Nova/Scripts/TextAnimator.cs:45-49 | empty text, cursor 0 |
| TextAnimation.TextAppendingBuffer.Append | Assets/Nova/Scripts/TextAnimator.cs:51-55 | the unconsumed text becomes the old one followed by the value |
| TextAnimation.TextAppendingBuffer.TryCleanUpUnused | Assets/Nova/Scripts/TextAnimator.cs:63-71 | compaction fires exactly at cursor >= threshold or a used-up buffer, never changes the unconsumed text, and leaves the cursor below the threshold |
| TextAnimation.TextAnimator.IsAnimating | Assets/Nova/Scripts/DialogueBoxController.cs:143-146 | animating exactly when characters are waiting |
| TextAnimation.TextAnimator.constructor | Assets/Nova/Scripts/TextAnimator.cs:78-83 | the revealed text starts as the label's text, with an empty buffer of threshold 20 |
| TextAnimation.TextAnimator.Set | Assets/Nova/Scripts/TextAnimator.cs:89-94 | the reveal state becomes SetSpec of the old one and the label shows the revealed text |
| TextAnimation.TextAnimator.Append | Assets/Nova/Scripts/TextAnimator.cs:96-99 | the value is queued behind the waiting text |
| TextAnimation.TextAnimator.Flush | Assets/Nova/Scripts/TextAnimator.cs:104-110 | the reveal state becomes FlushSpec of the old one; an empty buffer changes nothing |
| TextAnimation.TextAnimator.ForceUpdate | Assets/Nova/Scripts/TextAnimator.cs:112-116 | the label shows the revealed text |
| TextAnimation.TextAnimator.Update | Assets/Nova/Scripts/TextAnimator.cs:120-145 | one frame moves the reveal state exactly as UpdateSpec |
| TextAnimation.TextAnimator.RevealDue | Assets/Nova/Scripts/TextAnimator.cs:136-142 | the do-while loop moves the first Drain(...).count waiting characters to the revealed text and leaves the timer at Drain's remainder |
| DialogueBoxModel.Emit | Assets/Nova/Scripts/DialogueBoxController.cs:138-141 | a raised UnityEvent or a call on the story, appended to the log; SetStateEvents and ClickBehaviour state which are raised |
| DialogueBoxModel.AssertState | Assets/Nova/Scripts/DialogueBoxController.cs:317 | a failed Unity assertion only logs; SetStateEvents states that the setter never trips one, BranchSelectedOutsideNormal that a selection outside Normal does |
| DialogueBoxModel.StartScheduledStep | Assets/Nova/Scripts/DialogueBoxController.cs:383-392 | the scheduled step run up to its first suspension; SetStateSchedule and ScheduleAfterLine state the step created, NoStepBeforeDelay and StepOneFrameAfterDelay how it resumes |
| DialogueBoxModel.TrySchedule | Assets/Nova/Scripts/DialogueBoxController.cs:289-295 | starts a step only while a line is available; SetStateSchedule and ScheduleAfterLine state the step it creates |
| DialogueBoxModel.TryRemoveSchedule | Assets/Nova/Scripts/DialogueBoxController.cs:297-302 | drops the step; SetStateSchedule states that leaving Auto or Skip leaves none |
| DialogueBoxModel.AutoScheduledTime | Assets/Nova/Scripts/DialogueBoxController.cs:304-307 | the Auto delay; SetStateSchedule and ScheduleAfterLine state it as AutoWaitTimePerCharacter times the raw line length |
| DialogueBoxModel.BeginAuto | Assets/Nova/Scripts/DialogueBoxController.cs:315-320 | entering Auto; SetStateSchedule states its step and AutoBeforeFirstLine the case before the first line |
| DialogueBoxModel.StopAuto | Assets/Nova/Scripts/DialogueBoxController.cs:329-334 | leaving Auto; SetStateEvents and SetStateSchedule state its events and that no step is left |
| DialogueBoxModel.BeginSkip | Assets/Nova/Scripts/DialogueBoxController.cs:356-365 | entering Skip; SkipRoundTrip states the flush and the saved flag, SetStateSchedule its step |
| DialogueBoxModel.StopSkip | Assets/Nova/Scripts/DialogueBoxController.cs:373-379 | leaving Skip; SkipRoundTrip states that the saved flag comes back |
| DialogueBoxModel.ExitState | Assets/Nova/Scripts/DialogueBoxController.cs:91-105 | the setter's first switch; SetStateEvents states its stop event |
| DialogueBoxModel.EnterState | Assets/Nova/Scripts/DialogueBoxController.cs:107-122 | the setter's second switch; SetStateEvents states its start event |
| DialogueBoxModel.SetState | Assets/Nova/Scripts/DialogueBoxController.cs:81-124 | the State setter; SetStateEvents, AnnouncementsTrackState, SetStateSchedule and SetStateKeepsConsistent state its properties |
| DialogueBoxModel.OverwriteDialogueDisplay | Assets/Nova/Scripts/DialogueBoxController.cs:195-216 | the Overwrite display; OverwriteDisplay states the text and name box it leaves |
| DialogueBoxModel.AppendDialogueText | Assets/Nova/Scripts/DialogueBoxController.cs:218-221 | the Append display; LineDisplay states that the line and a blank line are queued behind the text |
| DialogueBoxModel.SetSchedule | Assets/Nova/Scripts/DialogueBoxController.cs:177-193 | rescheduling by state; ScheduleAfterLine states the step after a new line, SetScheduleKeepsDisplay that the display is untouched |
| DialogueBoxModel.ShowLine | Assets/Nova/Scripts/DialogueBoxController.cs:161-171 | the switch on the update mode; ShowLineTouchesDisplayOnly and LineDisplay state what it changes |
| DialogueBoxModel.OnDialogueChanged | Assets/Nova/Scripts/DialogueBoxController.cs:155-175 | a new line; ScheduleAfterLine, LineDisplay and DialogueChangedKeepsConsistent state its properties |
| DialogueBoxModel.NewPage | Assets/Nova/Scripts/DialogueBoxController.cs:133-136 | the Overwrite display of the empty line; OverwriteDisplay and NewPageKeepsConsistent state its properties |
| DialogueBoxModel.OnBranchOccurs | Assets/Nova/Scripts/DialogueBoxController.cs:253-257 | saving the state and forcing Normal; BranchRoundTrip and BranchOccursKeepsConsistent state its properties |
| DialogueBoxModel.OnBranchSelected | Assets/Nova/Scripts/DialogueBoxController.cs:266-282 | restoring the saved state; BranchRoundTrip, BranchSelectedOutsideNormal and BranchSelectedKeepsConsistent state its properties |
| DialogueBoxModel.OnCurrentRouteEnded | Assets/Nova/Scripts/DialogueBoxController.cs:65-68 | setting Normal; SetStateEvents and RouteEndedKeepsConsistent state its properties |
| DialogueBoxModel.OnDialogueWillChange | Assets/Nova/Scripts/DialogueBoxController.cs:70-73 | calls StopTimer, which zeroes the elapsed time; StalledWhileUnavailable states that a waiting step then never fires |
| DialogueBoxModel.IsAnimating | Assets/Nova/Scripts/DialogueBoxController.cs:143-146 | isAnimating, read from the text area: characters are still waiting; ClickBehaviour states how a click depends on it |
| DialogueBoxModel.OnPointerClick | Assets/Nova/Scripts/DialogueBoxController.cs:427-441 | a click; ClickBehaviour and ClickKeepsConsistent state its properties |
| DialogueBoxModel.Update | Assets/Nova/Scripts/DialogueBoxController.cs:419-425 | the timer update; NoStepBeforeDelay and StalledWhileUnavailable state how it drives the step |
| DialogueBoxModel.ResumeScheduledStep | Assets/Nova/Scripts/DialogueBoxController.cs:381-401 | one resumption of the scheduled step; StepOneFrameAfterDelay, NoStepBeforeDelay and ResumeKeepsConsistent state its properties |
| DialogueBoxModel.Frame | Assets/Nova/Scripts/DialogueBoxController.cs:381-425 | Update followed by the coroutine; StepOneFrameAfterDelay and FrameKeepsConsistent state its properties |
| DialogueBoxModel.GroupValue | Assets/Nova/Scripts/DialogueBoxController.cs:236 | the value of the configured group of the match; the ensures of ParseDialogueText states the name it gives |
| DialogueBoxModel.DialogueStart | Assets/Nova/Scripts/DialogueBoxController.cs:233-237 | dialogueStartIndex, m.Length for a match and 0 otherwise; the ensures of ParseDialogueText states the dialogue cut there |
| DialogueBoxModel.ParseDialogueText | Assets/Nova/Scripts/DialogueBoxController.cs:230-245 | the name is the configured group of a match (or "" without one); the dialogue is the text after the first m.Length characters with exactly the surrounding whitespace removed |
| DialogueBoxProperties.SetStateEvents | Assets/Nova/Scripts/DialogueBoxController.cs:81-124 | the setter ends in the requested state, setting the current state changes nothing, and a change raises the old state's stop event and then the new state's start event without a failed assertion |
| DialogueBoxProperties.AnnouncedLast | Assets/Nova/Scripts/DialogueBoxController.cs:138-141 | which state the last start or stop event announces |
| DialogueBoxProperties.AnnouncementsTrackState | Assets/Nova/Scripts/DialogueBoxController.cs:81-124 | once a line has been shown, the raised events keep announcing the current state |
| DialogueBoxProperties.AutoBeforeFirstLine | Assets/Nova/Scripts/DialogueBoxController.cs:304-320 | entering Auto before the first line throws: the state is Auto, nothing is scheduled, and no start event is raised |
| DialogueBoxProperties.SkipRoundTrip | Assets/Nova/Scripts/DialogueBoxController.cs:356-379 | entering Skip flushes the text and turns animation off; leaving it gives back the earlier NeedAnimation flag |
| DialogueBoxProperties.SetStateSchedule | Assets/Nova/Scripts/DialogueBoxController.cs:289-334 | a state change schedules nothing in Normal or while no line is available; otherwise Skip schedules after SkipDelay and Auto after AutoWaitTimePerCharacter times the raw line length |
| DialogueBoxProperties.BranchRoundTrip | Assets/Nova/Scripts/DialogueBoxController.cs:253-282 | a branch saves the state and forces Normal; its selection restores Auto or Skip only when the matching continue flag is set, with the exact events and no failed assertion |
| DialogueBoxProperties.BranchSelectedOutsideNormal | Assets/Nova/Scripts/DialogueBoxController.cs:266-282 | selecting a branch outside Normal logs a failed assertion and still restores |
| DialogueBoxProperties.ClickBehaviour | Assets/Nova/Scripts/DialogueBoxController.cs:427-441 | a click steps the story only in Normal with nothing animating; any other click flushes and ends in Normal |
| DialogueBoxProperties.ShowLineTouchesDisplayOnly | Assets/Nova/Scripts/DialogueBoxController.cs:161-171 | showing a line changes only the text, the name box and the name |
| DialogueBoxProperties.SetStateKeepsConsistent | Assets/Nova/Scripts/DialogueBoxController.cs:81-124 | the setter keeps the invariant: no step scheduled in Normal, animation off in Skip |
| DialogueBoxProperties.DialogueChangedKeepsConsistent | Assets/Nova/Scripts/DialogueBoxController.cs:155-175 | a new line keeps the invariant |
| DialogueBoxProperties.NewPageKeepsConsistent | Assets/Nova/Scripts/DialogueBoxController.cs:133-136 | a new page keeps the invariant |
| DialogueBoxProperties.BranchOccursKeepsConsistent | Assets/Nova/Scripts/DialogueBoxController.cs:253-257 | a branch keeps the invariant |
| DialogueBoxProperties.BranchSelectedKeepsConsistent | Assets/Nova/Scripts/DialogueBoxController.cs:266-282 | a branch selection keeps the invariant |
| DialogueBoxProperties.RouteEndedKeepsConsistent | Assets/Nova/Scripts/DialogueBoxController.cs:65-73 | the end of a route and a coming line change keep the invariant |
| DialogueBoxProperties.ClickKeepsConsistent | Assets/Nova/Scripts/DialogueBoxController.cs:427-441 | a click keeps the invariant |
| DialogueBoxProperties.ResumeKeepsConsistent | Assets/Nova/Scripts/DialogueBoxController.cs:381-401 | a resumption of the scheduled step keeps the invariant |
| DialogueBoxProperties.FrameKeepsConsistent | Assets/Nova/Scripts/DialogueBoxController.cs:381-425 | a frame keeps the invariant |
| DialogueBoxProperties.ScheduleAfterLine | Assets/Nova/Scripts/DialogueBoxController.cs:155-193 | a new line restarts the timer and schedules by the state: nothing in Normal, AutoWaitTimePerCharacter times the raw line length in Auto, SkipDelay in Skip |
| DialogueBoxProperties.SetScheduleKeepsDisplay | Assets/Nova/Scripts/DialogueBoxController.cs:177-193 | scheduling leaves the text, name box and name alone |
| DialogueBoxProperties.OverwriteDisplay | Assets/Nova/Scripts/DialogueBoxController.cs:195-216 | without name widgets the raw line is set and the name box and name are kept; with them the parsed dialogue is set, the name box is shown exactly when the name is not empty, and the name is replaced only then |
| DialogueBoxProperties.LineDisplay | Assets/Nova/Scripts/DialogueBoxController.cs:161-171 | Overwrite mode shows the line as OverwriteDisplay says, name kept when none is parsed or there are no name widgets; Append mode queues the line and a blank line behind the existing text and keeps the name box and name |
| DialogueBoxProperties.NoStepBeforeDelay | Assets/Nova/Scripts/DialogueBoxController.cs:384-387 | while the timer stays below the delay a waiting step stays waiting and frames only advance the timer |
| DialogueBoxProperties.StepOneFrameAfterDelay | Assets/Nova/Scripts/DialogueBoxController.cs:384-400 | the frame that reaches the delay only pauses the step; the next frame steps the story or returns to Normal |
| DialogueBoxProperties.StalledWhileUnavailable | Assets/Nova/Scripts/DialogueBoxController.cs:407-425 | after StopTimer a step waiting for a positive delay never fires |
| DialogueBox.DialogueBoxController.constructor | Assets/Nova/Scripts/DialogueBoxController.cs:75 | a box in Normal with no line, no schedule and the timer stopped |
| DialogueBox.DialogueBoxController.Emit | Assets/Nova/Scripts/DialogueBoxController.cs:138-141 | the event is appended to the log |
| DialogueBox.DialogueBoxController.AssertState | Assets/Nova/Scripts/DialogueBoxController.cs:317 | a state mismatch logs a failed assertion and nothing else |
| DialogueBox.DialogueBoxController.TrySchedule | Assets/Nova/Scripts/DialogueBoxController.cs:289-295 | moves the box as DialogueBoxModel.TrySchedule |
| DialogueBox.DialogueBoxController.TryRemoveSchedule | Assets/Nova/Scripts/DialogueBoxController.cs:297-302 | moves the box as DialogueBoxModel.TryRemoveSchedule |
| DialogueBox.DialogueBoxController.BeginAuto | Assets/Nova/Scripts/DialogueBoxController.cs:315-320 | moves the box as DialogueBoxModel.BeginAuto |
| DialogueBox.DialogueBoxController.StopAuto | Assets/Nova/Scripts/DialogueBoxController.cs:329-334 | moves the box as DialogueBoxModel.StopAuto |
| DialogueBox.DialogueBoxController.BeginSkip | Assets/Nova/Scripts/DialogueBoxController.cs:356-365 | moves the box as DialogueBoxModel.BeginSkip |
| DialogueBox.DialogueBoxController.StopSkip | Assets/Nova/Scripts/DialogueBoxController.cs:373-379 | moves the box as DialogueBoxModel.StopSkip |
| DialogueBox.DialogueBoxController.ExitState | Assets/Nova/Scripts/DialogueBoxController.cs:91-105 | moves the box as DialogueBoxModel.ExitState |
| DialogueBox.DialogueBoxController.EnterState | Assets/Nova/Scripts/DialogueBoxController.cs:107-122 | moves the box as DialogueBoxModel.EnterState |
| DialogueBox.DialogueBoxController.SetState | Assets/Nova/Scripts/DialogueBoxController.cs:81-124 | moves the box as DialogueBoxModel.SetState, whose events SetStateEvents states |
| DialogueBox.DialogueBoxController.OverwriteDialogueDisplay | Assets/Nova/Scripts/DialogueBoxController.cs:195-216 | moves the box as DialogueBoxModel.OverwriteDialogueDisplay, whose display OverwriteDisplay states |
| DialogueBox.DialogueBoxController.AppendDialogueText | Assets/Nova/Scripts/DialogueBoxController.cs:218-221 | queues the line and a blank line behind the waiting text |
| DialogueBox.DialogueBoxController.SetSchedule | Assets/Nova/Scripts/DialogueBoxController.cs:177-193 | moves the box as DialogueBoxModel.SetSchedule |
| DialogueBox.DialogueBoxController.OnDialogueChanged | Assets/Nova/Scripts/DialogueBoxController.cs:155-175 | moves the box as DialogueBoxModel.OnDialogueChanged and keeps the invariant |
| DialogueBox.DialogueBoxController.NewPage | Assets/Nova/Scripts/DialogueBoxController.cs:133-136 | overwrites the display with the empty line and keeps the invariant |
| DialogueBox.DialogueBoxController.OnBranchOccurs | Assets/Nova/Scripts/DialogueBoxController.cs:253-257 | moves the box as DialogueBoxModel.OnBranchOccurs and keeps the invariant |
| DialogueBox.DialogueBoxController.OnBranchSelected | Assets/Nova/Scripts/DialogueBoxController.cs:266-282 | moves the box as DialogueBoxModel.OnBranchSelected and keeps the invariant |
| DialogueBox.DialogueBoxController.OnCurrentRouteEnded | Assets/Nova/Scripts/DialogueBoxController.cs:65-68 | moves the box to Normal as the setter does and keeps the invariant |
| DialogueBox.DialogueBoxController.OnDialogueWillChange | Assets/Nova/Scripts/DialogueBoxController.cs:70-73 | stops the timer and keeps the invariant |
| DialogueBox.DialogueBoxController.OnPointerClick | Assets/Nova/Scripts/DialogueBoxController.cs:427-441 | moves the box as DialogueBoxModel.OnPointerClick and keeps the invariant |
| DialogueBox.DialogueBoxController.Update | Assets/Nova/Scripts/DialogueBoxController.cs:419-425 | the timer advances by dt only while a line is available |
| DialogueBox.DialogueBoxController.ResumeScheduledStep | Assets/Nova/Scripts/DialogueBoxController.cs:381-401 | moves the box as DialogueBoxModel.ResumeScheduledStep and keeps the invariant |
| ModeRegistry.Key | Assets/Nova/Scripts/DialogueBoxesManager.cs:27 | the dictionary key, the lower-cased controller type; BuildShape and KeysLowerCase state where and in what form it is registered |
| ModeRegistry.AddObject | Assets/Nova/Scripts/DialogueBoxesManager.cs:26-27 | one Awake iteration; BuildWellFormed, BuildStops and BuildShape state what the iterations build |
| ModeRegistry.BuildPrefix | Assets/Nova/Scripts/DialogueBoxesManager.cs:24-28 | Awake over a prefix of the game objects; BuildWellFormed, BuildShape and BuildSucceeds state its properties |
| ModeRegistry.Build | Assets/Nova/Scripts/DialogueBoxesManager.cs:20-28 | the dictionary Awake builds; BuildSucceeds and CaseInsensitiveClash state when it throws |
| ModeRegistry.BuildWellFormed | Assets/Nova/Scripts/DialogueBoxesManager.cs:20-28 | the dictionary is well formed at every stage of Awake: distinct keys, each naming a game object whose controller's lower-cased type is that key |
| ModeRegistry.BuildStops | Assets/Nova/Scripts/DialogueBoxesManager.cs:24-28 | after an exception nothing more is registered |
| ModeRegistry.BuildShape | Assets/Nova/Scripts/DialogueBoxesManager.cs:24-28 | without an exception, game object i is registered under its lower-cased type, in order |
| ModeRegistry.BuildSucceeds | Assets/Nova/Scripts/DialogueBoxesManager.cs:24-28 | Awake completes exactly when every game object has a controller and no two lower-cased types agree |
| ModeRegistry.CaseInsensitiveClash | Assets/Nova/Scripts/DialogueBoxesManager.cs:27 | two types that differ only in case make Awake throw |
| ModeRegistry.KeysLowerCase | Assets/Nova/Scripts/DialogueBoxManager.cs:27 | every registered key is lower case |
| ModeRegistry.SetActiveAt | Assets/Nova/Scripts/DialogueBoxesManager.cs:59-68 | activation keeps the number of game objects |
| ModeRegistry.Recorded | Assets/Nova/Scripts/DialogueBoxManager.cs:51 | what Start records as the mode, the key or the declared type; StartChoosesFirstActive, StartRecordingKeyKeepsOnlyModeActive and MixedCaseModeUnregistered state the consequences |
| ModeRegistry.StartVisit | Assets/Nova/Scripts/DialogueBoxesManager.cs:39-55 | one Start iteration keeps the number of game objects |
| ModeRegistry.StartScan | Assets/Nova/Scripts/DialogueBoxesManager.cs:37-56 | the Start loop keeps the number of game objects |
| ModeRegistry.AtMostOneActive | Assets/Nova/Scripts/DialogueBoxesManager.cs:8 | when only the mode's controller may be active, at most one managed controller is active |
| ModeRegistry.IndexInjective | Assets/Nova/Scripts/DialogueBoxesManager.cs:27 | distinct keys belong to distinct game objects |
| ModeRegistry.StartIgnoresNonBehaviours | Assets/Nova/Scripts/DialogueBoxesManager.cs:41-45 | Start never touches a game object whose controller is not a MonoBehaviour |
| ModeRegistry.StartAfterModeSet | Assets/Nova/Scripts/DialogueBoxesManager.cs:48-52 | with a mode already set, Start keeps it and deactivates every registered MonoBehaviour controller |
| ModeRegistry.FirstActive | Assets/Nova/Scripts/DialogueBoxesManager.cs:54-55 | the first position holding an active MonoBehaviour controller, with none before it |
| ModeRegistry.StartScanInvariant | Assets/Nova/Scripts/DialogueBoxesManager.cs:37-56 | the Start loop invariant holds after each iteration |
| ModeRegistry.StartChoosesFirstActive | Assets/Nova/Scripts/DialogueBoxesManager.cs:37-56 | with no mode set, Start makes the first active MonoBehaviour controller the mode and leaves it the only active one; with none, nothing changes |
| ModeRegistry.StartRecordingKeyKeepsOnlyModeActive | Assets/Nova/Scripts/DialogueBoxesManager.cs:55 | recording the key, Start leaves only the mode's controller active |
| ModeRegistry.MixedCaseModeUnregistered | Assets/Nova/Scripts/DialogueBoxManager.cs:51 | recording the declared type, a mode that is not lower case is not a key |
| ModeRegistry.SetModeSpec | Assets/Nova/Scripts/DialogueBoxesManager.cs:72-97 | the Mode setter; SetModeCaseInsensitive, SetModeKeepsOnlyModeActive, SetModeIgnoresNonBehaviours, UnknownModeRejected, SetModeKeepsModeRegistered and MixedCaseModeLocksSetter state its properties |
| ModeRegistry.SetModeCaseInsensitive | Assets/Nova/Scripts/DialogueBoxesManager.cs:77 | the setter ignores letter case |
| ModeRegistry.SetModeKeepsOnlyModeActive | Assets/Nova/Scripts/DialogueBoxesManager.cs:77-95 | a switch keeps at most the mode's controller active, activates a registered new mode, and records the lower-cased mode |
| ModeRegistry.SetModeIgnoresNonBehaviours | Assets/Nova/Scripts/DialogueBoxesManager.cs:59-68 | the setter switches only game objects of MonoBehaviour controllers |
| ModeRegistry.UnknownModeRejected | Assets/Nova/Scripts/DialogueBoxesManager.cs:77-95 | a switch to another mode throws FormatException and changes nothing exactly when the mode is unregistered; from a registered or absent mode, a registered one is recorded |
| ModeRegistry.SetModeKeepsModeRegistered | Assets/Nova/Scripts/DialogueBoxesManager.cs:77-95 | from a registered or absent mode the setter never records an unregistered one and never throws KeyNotFound |
| ModeRegistry.StartKeepsModeRegistered | Assets/Nova/Scripts/DialogueBoxesManager.cs:37-56 | recording the key, Start keeps the mode absent or registered |
| ModeRegistry.MixedCaseModeLocksSetter | Assets/Nova/Scripts/DialogueBoxManager.cs:73-91 | with a mixed-case unregistered mode every switch throws and changes nothing: KeyNotFound for a registered target, FormatException for an unregistered one |
| ModeRegistry.Current | Assets/Nova/Scripts/DialogueBoxesManager.cs:99-106 | no mode throws ArgumentNull; a registered mode gives its controller; an unregistered one gives null |
| DialogueBoxManagers.Manager.constructor | Assets/Nova/Scripts/DialogueBoxesManager.cs:16-18 | the game objects and their flags, with an empty dictionary and no mode |
| DialogueBoxManagers.Manager.Awake | Assets/Nova/Scripts/DialogueBoxesManager.cs:20-28 | the loop builds exactly the dictionary Build describes and returns its exception |
| DialogueBoxManagers.Manager.Start | Assets/Nova/Scripts/DialogueBoxesManager.cs:33-57 | the loop leaves the state StartScan describes |
| DialogueBoxManagers.Manager.SetActive | Assets/Nova/Scripts/DialogueBoxesManager.cs:59-68 | switches the game object only for a MonoBehaviour controller |
| DialogueBoxManagers.Manager.SetMode | Assets/Nova/Scripts/DialogueBoxesManager.cs:72-97 | moves the state and the exception as SetModeSpec |
| DialogueBoxManagers.Manager.CurrentDialogueBoxController | Assets/Nova/Scripts/DialogueBoxesManager.cs:99-106 | returns what Current describes |
| DialogueBoxManagers.Manager.NewPage | Assets/Nova/Scripts/DialogueBoxesManager.cs:108-115 | forwards to the current controller only when there is one, and passes on the exception of a missing mode |
| Strings.Trim | Assets/Nova/Scripts/DialogueBoxController.cs:244 | String.Trim; TrimFactors states that it removes exactly the leading and trailing whitespace |
| Strings.TrimFactors | Assets/Nova/Scripts/DialogueBoxController.cs:244 | Trim removes exactly the leading and trailing whitespace and leaves a trimmed string |
| Strings.ToLower | Assets/Nova/Scripts/DialogueBoxesManager.cs:27 | same length, lower-cased character by character |
| Strings.ToLowerIdempotent | Assets/Nova/Scripts/DialogueBoxesManager.cs:77 | lower-casing twice is lower-casing once |

## Left out

- Animation.NovaAnimation.OnDestroy: Unity stops the coroutines of a
  destroyed component, so the entries `OnDestroy` marks are never written to
  their targets. The model only marks them, and a `Tick` after `OnDestroy`
  would still write them; component destruction is not modelled.
- The Unity coroutine runtime (`StartCoroutine`, `StopCoroutine`,
  `StopAllCoroutines`, `yield`) and the script execution order between
  components. Coroutines are explicit per-frame steps, and `Time.deltaTime` is
  a parameter.
- `WaitForSeconds` as a timed sleep. It is modelled as one re-check of the
  waiting loop per frame, which is when the loop condition can next change.
- IEEE float rounding. Times and values are `real`.
- The .NET regular-expression engine. `Regex.Match(text, namePattern)` is the
  configured function `matcher`, which returns the match length and groups.
- `String.Trim` and `String.ToLower`: only ASCII whitespace and ASCII
  letters are handled.
- SetModeSpec: assumes Unity's default logger. With logging of `LogType.Log`
  switched off (`Debug.unityLogger.logEnabled = false`, or a filter that
  excludes it), `LogFormat` never formats, so the setter goes on after the
  log. It then deactivates the old controller and records the unknown mode.
  The model does not cover that configuration.
- The story object `GameState` is not part of this model. Its `Step` is the
  `StepRequested` event, and `canStepForward` is a parameter of the
  scheduled step.
- `OnEnable`/`OnDisable` event subscription, the logged text of `Debug.Log`
  and `Debug.LogFormat`, and the Lua binding in `DialogueBoxesManager.Awake`
  (`LuaRuntime.BindObject`). These are wiring and logging; the one log call
  that affects the modelled state, the throwing `LogFormat` in the `Mode`
  setter, is modelled as its `Format` fault.
- Strings are sequences of Unicode scalar values, where the code counts UTF-16
  code units: `currentDialogueText.Length` (DialogueBoxController.cs:306),
  `Substring(m.Length)` (:244) and the buffer's `text[currentIndex]`
  (TextAnimator.cs:28-33). For a line holding characters outside the Basic
  Multilingual Plane, the code's Auto delay counts each such character twice,
  and the reveal shows it over two frames, one surrogate at a time; the model
  counts it once and reveals it in one frame.
- `IDialogueBoxController.NewPage` on the current controller is recorded as
  the index of that controller's game object. The controller's own `NewPage`
  is modelled by `DialogueBox.DialogueBoxController.NewPage`.
- A null `value` given to the `Mode` setter (`value.ToLower()` throws). The
  model's mode argument is always a string.
- A null entry in `DialogueBoxControllerGameObjects` and a game object
  without a controller both throw `NullReferenceException` in `Awake`. The
  model uses one `None` case for both.
- The dictionary before `Awake` is null in the code. The model starts it
  empty.
- `TextAnimator.IsAnimating` is used by the controller but is not part of the
  `TextAnimator` file modelled here. It is modelled as "characters are
  waiting in the buffer".
- DialogueBoxModel.ParseDialogueText: states only that the line is cut at
  `m.Length`. It does not model `m.Index`, which the code ignores.
- The `default:` branches that throw `ArgumentOutOfRangeException`. They
  cannot be reached with the enum values the model has.
- ModeRegistry.SetActiveAt, ModeRegistry.StartVisit, ModeRegistry.StartScan:
  their own contracts state only the sequence length. What they compute is
  stated by StartChoosesFirstActive, StartAfterModeSet and
  StartIgnoresNonBehaviours.
