/** Properties of the dialogue box model: what the `State` setter does and
    announces, the round trips through `Skip` and through a branch, what a
    click does, the state invariant, and when a scheduled step fires. */
module DialogueBoxProperties {
  import opened Optional
  import opened Strings
  import opened TextAnimation
  import opened DialogueBoxModel

  /** The event raised when leaving `s`. */
  function StopEvents(s: BoxState): seq<Event> {
    match s
    case Normal => []
    case Auto => [AutoModeStops]
    case Skip => [SkipModeStops]
  }

  /** The event raised when entering `s`; entering `Auto` before any line has
      been shown throws instead. */
  function StartEvents(s: BoxState, hasLine: bool): seq<Event> {
    match s
    case Normal => []
    case Auto => if hasLine then [AutoModeStarts] else [NullReferenceThrown]
    case Skip => [SkipModeStarts]
  }

  /** The setter always ends in the requested state, even when `BeginAuto`
      throws; setting the current state changes nothing; a change raises the
      stop event of the old state and then the start event of the new one, and
      never trips an assertion. */
  lemma SetStateEvents(b: Box, cfg: Config, v: BoxState)
    ensures SetState(b, cfg, v).state == v
    ensures b.state == v ==> SetState(b, cfg, v) == b
    ensures b.state != v ==>
      SetState(b, cfg, v).log == b.log + StopEvents(b.state) + StartEvents(v, b.currentDialogueText.Some?)
  {
    if b.state != v {
      var e := ExitState(b);
      assert e.state == Normal && e.log == b.log + StopEvents(b.state);
      assert e.currentDialogueText == b.currentDialogueText;
    }
  }

  lemma AnnouncedLast(log: seq<Event>, e: Event)
    ensures AnnouncedState(log + [e]) == match e
      case AutoModeStarts => Auto
      case SkipModeStarts => Skip
      case AutoModeStops => Normal
      case SkipModeStops => Normal
      case _ => AnnouncedState(log)
  {
    assert (log + [e])[..|log|] == log;
  }

  /** Once a line has been shown, the raised events keep announcing the state:
      if they announced it before a change, they announce the new one after. */
  lemma AnnouncementsTrackState(b: Box, cfg: Config, v: BoxState)
    requires b.currentDialogueText.Some? && AnnouncedState(b.log) == b.state
    ensures AnnouncedState(SetState(b, cfg, v).log) == v
  {
    SetStateEvents(b, cfg, v);
    if b.state != v {
      var stops := b.log + StopEvents(b.state);
      if b.state != Normal {
        assert StopEvents(b.state) == [StopEvents(b.state)[0]];
        AnnouncedLast(b.log, StopEvents(b.state)[0]);
      } else {
        assert stops == b.log;
      }
      assert AnnouncedState(stops) == Normal;
      if v != Normal {
        var start := StartEvents(v, true);
        assert start == [start[0]];
        AnnouncedLast(stops, start[0]);
      } else {
        assert stops + StartEvents(v, true) == stops;
      }
    }
  }

  /** Entering `Auto` before the first line leaves the box in `Auto` with nothing
      scheduled, while the raised events still announce `Normal`. */
  lemma AutoBeforeFirstLine(b: Box, cfg: Config)
    requires b.currentDialogueText == None && b.state == Normal && AnnouncedState(b.log) == Normal
    ensures var r := SetState(b, cfg, Auto);
      && r.state == Auto && r.scheduled == b.scheduled
      && r.log == b.log + [NullReferenceThrown]
      && AnnouncedState(r.log) == Normal
  {
    var r := SetState(b, cfg, Auto);
    SetStateEvents(b, cfg, Auto);
    AnnouncedLast(b.log, NullReferenceThrown);
  }

  /** Passing through `Skip` reveals the whole text and turns animation off, and
      leaving `Skip` gives back the `NeedAnimation` flag it had before. */
  lemma SkipRoundTrip(b: Box, cfg: Config, v: BoxState)
    requires b.state != Skip && v != Skip
    ensures var s := SetState(b, cfg, Skip);
      && s.state == Skip && !s.needAnimation
      && s.text.pending == [] && s.text.displayed == b.text.displayed + b.text.pending
      && SetState(s, cfg, v).needAnimation == b.needAnimation
      && SetState(s, cfg, v).state == v
  {
    var e := ExitState(b);
    assert e.needAnimation == b.needAnimation && e.text == b.text;
    FlushReveals(b.text);
  }

  /** From a consistent box, a change of state leaves no step scheduled in
      `Normal` or while no line is available; otherwise entering `Skip`
      schedules after the skip delay, and entering `Auto` after the
      per-character wait times the length of the raw line, both measured on
      the running timer. */
  lemma SetStateSchedule(b: Box, cfg: Config, v: BoxState)
    requires Consistent(b) && b.state != v
    ensures var r := SetState(b, cfg, v);
      && (v == Normal || !b.dialogueAvailable ==> r.scheduled == None)
      && (v == Skip && b.dialogueAvailable ==>
            r.scheduled == Some(StartScheduledStep(cfg.skipDelay, b.timeAfterDialogueChange)))
      && (v == Auto && b.dialogueAvailable ==>
            r.scheduled == match b.currentDialogueText
              case None => None
              case Some(line) =>
                Some(StartScheduledStep(cfg.autoWaitTimePerCharacter * (|line| as real), b.timeAfterDialogueChange)))
  {
    var x := ExitState(b);
    assert x.scheduled == None && x.state == Normal;
    assert x.dialogueAvailable == b.dialogueAvailable && x.timeAfterDialogueChange == b.timeAfterDialogueChange;
    assert x.currentDialogueText == b.currentDialogueText;
  }

  /** The state the box returns to after a branch that started in `s`. */
  function StateAfterBranch(cfg: Config, s: BoxState): BoxState {
    match s
    case Normal => Normal
    case Auto => if cfg.continueAutoAfterBranch then Auto else Normal
    case Skip => if cfg.continueSkipAfterBranch then Skip else Normal
  }

  /** A branch suspends `Auto` and `Skip` and its selection resumes them when
      the matching `continue…AfterBranch` flag is set (ending in `Normal`
      otherwise), without tripping the assertion. After a resumed `Skip` the
      flag to restore on leaving it is the original one. */
  lemma BranchRoundTrip(b: Box, cfg: Config)
    ensures var o := OnBranchOccurs(b, cfg);
      var r := OnBranchSelected(o, cfg);
      && o.state == Normal && o.stateBeforeBranch == b.state
      && r.state == StateAfterBranch(cfg, b.state)
      && r.log == b.log + StopEvents(b.state)
           + (if StateAfterBranch(cfg, b.state) != Normal then StartEvents(StateAfterBranch(cfg, b.state), b.currentDialogueText.Some?) else [])
      && (b.state == Skip && cfg.continueSkipAfterBranch ==> r.shouldNeedAnimation == b.shouldNeedAnimation)
  {
    var b0 := b.(stateBeforeBranch := b.state);
    var o := OnBranchOccurs(b, cfg);
    SetStateEvents(b0, cfg, Normal);
    assert o.log == b.log + StopEvents(b.state);
    assert o.currentDialogueText == b.currentDialogueText;
    var target := StateAfterBranch(cfg, b.state);
    SetStateEvents(o, cfg, target);
    var r := OnBranchSelected(o, cfg);
    if target != Normal {
      assert r.log == o.log + StartEvents(target, b.currentDialogueText.Some?);
    } else {
      assert r.log == o.log;
    }
  }

  /** When a branch is selected outside `Normal` the assertion fails, is only
      logged, and the restore goes ahead. */
  lemma BranchSelectedOutsideNormal(b: Box, cfg: Config)
    requires b.state != Normal
    ensures var r := OnBranchSelected(b, cfg);
      && b.log + [AssertionFailed] <= r.log
      && r.state == (if b.stateBeforeBranch == Normal then b.state else StateAfterBranch(cfg, b.stateBeforeBranch))
  {
    var b1 := Emit(b, AssertionFailed);
    var r := OnBranchSelected(b, cfg);
    SetStateEvents(b1, cfg, StateAfterBranch(cfg, b.stateBeforeBranch));
  }

  /** A click in `Normal` with the text fully shown asks the story to step. Any
      other click reveals the whole text, requests no step, and leaves `Auto`
      or `Skip`. */
  lemma ClickBehaviour(b: Box, cfg: Config)
    ensures var r := OnPointerClick(b, cfg);
      && r.state == Normal
      && r.text == FlushSpec(b.text)
      && (b.state == Normal && !IsAnimating(b) ==> r.log == b.log + [StepRequested])
      && (!(b.state == Normal && !IsAnimating(b)) ==> r.log == b.log + StopEvents(b.state))
  {
    var b1 := if IsAnimating(b) then b.(text := FlushSpec(b.text)) else b;
    SetStateEvents(b1, cfg, Normal);
    FlushReveals(b.text);
    if b.state == Skip {
      assert ExitState(b1).text == b1.text;
    }
  }

  /** Showing a line changes only the text, the name box and the name. */
  lemma ShowLineTouchesDisplayOnly(b: Box, cfg: Config, line: string)
    requires MatchFits(cfg.matcher(line), line)
    ensures var r := ShowLine(b, cfg, line);
      r == b.(text := r.text, nameBoxActive := r.nameBoxActive, nameText := r.nameText)
  {
    if cfg.updateMode == Overwrite && cfg.hasNameWidgets {
      var p := ParseDialogueText(cfg, line);
      var b1 := if p.name == "" then b.(nameBoxActive := false) else b.(nameBoxActive := true, nameText := p.name);
      assert b1 == b.(nameBoxActive := b1.nameBoxActive, nameText := b1.nameText);
    }
  }

  /** Every handler and every frame keeps the state invariant. */
  lemma SetStateKeepsConsistent(b: Box, cfg: Config, v: BoxState)
    requires Consistent(b)
    ensures Consistent(SetState(b, cfg, v))
  {
  }

  lemma DialogueChangedKeepsConsistent(b: Box, cfg: Config, line: string)
    requires Consistent(b) && MatchFits(cfg.matcher(line), line)
    ensures Consistent(OnDialogueChanged(b, cfg, line))
  {
    var b1 := b.(timeAfterDialogueChange := 0.0, dialogueAvailable := true, currentDialogueText := Some(line));
    ShowLineTouchesDisplayOnly(b1, cfg, line);
  }

  lemma NewPageKeepsConsistent(b: Box, cfg: Config)
    requires Consistent(b) && MatchFits(cfg.matcher(""), "")
    ensures Consistent(NewPage(b, cfg))
  {
  }

  lemma BranchOccursKeepsConsistent(b: Box, cfg: Config)
    requires Consistent(b)
    ensures Consistent(OnBranchOccurs(b, cfg))
  {
    SetStateKeepsConsistent(b.(stateBeforeBranch := b.state), cfg, Normal);
  }

  lemma BranchSelectedKeepsConsistent(b: Box, cfg: Config)
    requires Consistent(b)
    ensures Consistent(OnBranchSelected(b, cfg))
  {
    var b1 := AssertState(b, Normal);
    if b.stateBeforeBranch != Normal {
      SetStateKeepsConsistent(b1, cfg, StateAfterBranch(cfg, b.stateBeforeBranch));
    }
  }

  lemma RouteEndedKeepsConsistent(b: Box, cfg: Config)
    requires Consistent(b)
    ensures Consistent(OnCurrentRouteEnded(b, cfg))
    ensures Consistent(OnDialogueWillChange(b))
  {
    SetStateKeepsConsistent(b, cfg, Normal);
  }

  lemma ClickKeepsConsistent(b: Box, cfg: Config)
    requires Consistent(b)
    ensures Consistent(OnPointerClick(b, cfg))
  {
    if IsAnimating(b) {
      SetStateKeepsConsistent(b.(text := FlushSpec(b.text)), cfg, Normal);
    } else {
      SetStateKeepsConsistent(b, cfg, Normal);
    }
  }

  lemma ResumeKeepsConsistent(b: Box, cfg: Config, canStepForward: bool)
    requires Consistent(b)
    ensures Consistent(ResumeScheduledStep(b, cfg, canStepForward))
  {
    SetStateKeepsConsistent(b.(scheduled := None), cfg, Normal);
  }

  lemma FrameKeepsConsistent(b: Box, cfg: Config, dt: real, canStepForward: bool)
    requires Consistent(b)
    ensures Consistent(Frame(b, cfg, dt, canStepForward))
  {
    ResumeKeepsConsistent(Update(b, dt), cfg, canStepForward);
  }

  /** A new line restarts the timer and schedules the next step by the state:
      none in `Normal`, after the per-character wait in `Auto`, after the skip
      delay in `Skip`. The step starts paused when its delay is not positive. */
  lemma ScheduleAfterLine(b: Box, cfg: Config, line: string)
    requires MatchFits(cfg.matcher(line), line)
    ensures var r := OnDialogueChanged(b, cfg, line);
      && r.state == b.state && r.log == b.log
      && r.dialogueAvailable && r.timeAfterDialogueChange == 0.0 && r.currentDialogueText == Some(line)
      && (b.state == Normal ==> r.scheduled == None)
      && (b.state == Auto ==> r.scheduled == Some(StartScheduledStep(cfg.autoWaitTimePerCharacter * (|line| as real), 0.0)))
      && (b.state == Skip ==> r.scheduled == Some(StartScheduledStep(cfg.skipDelay, 0.0)))
  {
    var b1 := b.(timeAfterDialogueChange := 0.0, dialogueAvailable := true, currentDialogueText := Some(line));
    ShowLineTouchesDisplayOnly(b1, cfg, line);
  }

  /** Scheduling leaves the text, the name box and the name alone. */
  lemma SetScheduleKeepsDisplay(b: Box, cfg: Config)
    ensures var r := SetSchedule(b, cfg);
      r.text == b.text && r.nameBoxActive == b.nameBoxActive && r.nameText == b.nameText
  {
  }

  /** The text, name box and name after `OverwriteDialogueDisplay`: without
      name widgets the whole line is shown and the name box and name are left
      alone; with them the name box shows exactly when a name was parsed, and
      the name is replaced only then. */
  lemma OverwriteDisplay(b: Box, cfg: Config, line: string)
    requires MatchFits(cfg.matcher(line), line)
    ensures var r := OverwriteDialogueDisplay(b, cfg, line);
      && (!cfg.hasNameWidgets ==>
            r.text == SetSpec(b.text, line) && r.nameBoxActive == b.nameBoxActive && r.nameText == b.nameText)
      && (cfg.hasNameWidgets ==>
            var p := ParseDialogueText(cfg, line);
            && r.text == SetSpec(b.text, p.dialogue)
            && (r.nameBoxActive <==> p.name != "")
            && r.nameText == (if p.name != "" then p.name else b.nameText))
  {
  }

  /** How a new line is shown: in `Overwrite` mode the revealed text restarts
      from the parsed dialogue and the name box shows exactly when a name was
      found, the name changing only then; in `Append` mode, or without name
      widgets, the name box and name are left alone, and in `Append` mode the
      line and a blank line are queued behind the text already there. */
  lemma LineDisplay(b: Box, cfg: Config, line: string)
    requires MatchFits(cfg.matcher(line), line)
    ensures var r := OnDialogueChanged(b, cfg, line);
      && (cfg.updateMode == Append ==>
            && r.text == AppendSpec(b.text, line + "\n\n")
            && r.nameBoxActive == b.nameBoxActive && r.nameText == b.nameText)
      && (cfg.updateMode == Overwrite && !cfg.hasNameWidgets ==>
            r.text == SetSpec(b.text, line) && r.nameBoxActive == b.nameBoxActive && r.nameText == b.nameText)
      && (cfg.updateMode == Overwrite && cfg.hasNameWidgets ==>
            var p := ParseDialogueText(cfg, line);
            && r.text == SetSpec(b.text, p.dialogue)
            && (r.nameBoxActive <==> p.name != "")
            && r.nameText == (if p.name != "" then p.name else b.nameText))
  {
    var b1 := b.(timeAfterDialogueChange := 0.0, dialogueAvailable := true, currentDialogueText := Some(line));
    var b2 := ShowLine(b1, cfg, line);
    SetScheduleKeepsDisplay(b2, cfg);
    if cfg.updateMode == Overwrite {
      OverwriteDisplay(b1, cfg, line);
    }
  }

  lemma {:induction false} TotalTimeNonNegative(dts: seq<real>)
    requires NonNegative(dts)
    ensures TotalTime(dts) >= 0.0
    decreases |dts|
  {
    if dts != [] {
      TotalTimeNonNegative(dts[1..]);
    }
  }

  /** While the time since the line stays below the delay, a waiting step stays
      waiting: frames only advance the timer and nothing happens outside. */
  lemma {:induction false} NoStepBeforeDelay(b: Box, cfg: Config, dts: seq<real>, canStepForward: bool)
    requires b.dialogueAvailable && b.scheduled.Some? && b.scheduled.value.phase == Waiting
    requires NonNegative(dts) && b.timeAfterDialogueChange + TotalTime(dts) < b.scheduled.value.delay
    ensures Frames(b, cfg, dts, canStepForward)
         == b.(timeAfterDialogueChange := b.timeAfterDialogueChange + TotalTime(dts))
    decreases |dts|
  {
    if dts != [] {
      TotalTimeNonNegative(dts[1..]);
      var b1 := Frame(b, cfg, dts[0], canStepForward);
      assert b1 == b.(timeAfterDialogueChange := b.timeAfterDialogueChange + dts[0]);
      NoStepBeforeDelay(b1, cfg, dts[1..], canStepForward);
    }
  }

  /** The frame whose timer reaches the delay only moves the step to its pause;
      the frame after it steps the story, or returns the box to `Normal` when
      the story cannot step. */
  lemma StepOneFrameAfterDelay(b: Box, cfg: Config, dt1: real, dt2: real, can1: bool, can2: bool)
    requires b.dialogueAvailable && b.scheduled.Some? && b.scheduled.value.phase == Waiting
    requires b.timeAfterDialogueChange + dt1 >= b.scheduled.value.delay
    ensures var f1 := Frame(b, cfg, dt1, can1);
      var f2 := Frame(f1, cfg, dt2, can2);
      && f1 == b.(timeAfterDialogueChange := b.timeAfterDialogueChange + dt1,
                  scheduled := Some(b.scheduled.value.(phase := Paused)))
      && f2.scheduled == None
      && (can2 ==> f2.log == b.log + [StepRequested] && f2.state == b.state)
      && (!can2 ==> f2.state == Normal && f2.log == b.log + StopEvents(b.state))
  {
    var f1 := Frame(b, cfg, dt1, can1);
    var u := Update(f1, dt2).(scheduled := None);
    SetStateEvents(u, cfg, Normal);
  }

  /** After `OnDialogueWillChange` the timer is frozen at zero, so a step waiting
      for a positive delay never fires, however many frames pass. */
  lemma {:induction false} StalledWhileUnavailable(b: Box, cfg: Config, dts: seq<real>, canStepForward: bool)
    requires !b.dialogueAvailable && b.scheduled.Some? && b.scheduled.value.phase == Waiting
    requires b.scheduled.value.delay > b.timeAfterDialogueChange
    ensures Frames(b, cfg, dts, canStepForward) == b
    decreases |dts|
  {
    if dts != [] {
      assert Frame(b, cfg, dts[0], canStepForward) == b;
      StalledWhileUnavailable(b, cfg, dts[1..], canStepForward);
    }
  }
}
