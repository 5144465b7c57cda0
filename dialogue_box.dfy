/** `DialogueBoxController` as a class whose fields the handlers update in
    place. Every method is proved to move `View()`, the box's state as a value,
    exactly as the function of the same name in `DialogueBoxModel` does, and the
    public handlers keep the state invariant `Consistent`. */
module DialogueBox {
  import opened Optional
  import opened TextAnimation
  import opened DialogueBoxModel
  import opened DialogueBoxProperties

  class DialogueBoxController {
    const config: Config
    /** `dialogueTextArea`. */
    const textArea: TextAnimator
    var state: BoxState
    var stateBeforeBranch: BoxState
    var shouldNeedAnimation: bool
    var timeAfterDialogueChange: real
    var dialogueAvailable: bool
    /** `scheduledStepCoroutine`, with where it is suspended. */
    var scheduled: Option<ScheduledStep>
    var currentDialogueText: Option<string>
    /** `nameBox.activeSelf` and `nameTextArea.text`. */
    var nameBoxActive: bool
    var nameText: string
    /** The events raised and the steps requested so far. */
    var log: seq<Event>

    ghost function View(): Box
      reads this, textArea, textArea.buffer
      requires textArea.buffer.Valid()
    {
      Box(state, stateBeforeBranch, shouldNeedAnimation, textArea.State(), textArea.needAnimation,
          timeAfterDialogueChange, dialogueAvailable, scheduled, currentDialogueText,
          nameBoxActive, nameText, log)
    }

    ghost predicate Valid()
      reads this, textArea, textArea.buffer
    {
      textArea.Valid() && Consistent(View())
    }

    /** A box as `Awake` leaves it: `Normal`, no line yet, timer stopped. */
    constructor (config: Config, textArea: TextAnimator, nameBoxActive: bool, nameText: string)
      requires textArea.Valid()
      ensures Valid() && this.config == config && this.textArea == textArea
      ensures View() == Box(Normal, Normal, false, textArea.State(), textArea.needAnimation,
                            0.0, false, None, None, nameBoxActive, nameText, [])
    {
      this.config := config;
      this.textArea := textArea;
      state := Normal;
      stateBeforeBranch := Normal;
      shouldNeedAnimation := false;
      timeAfterDialogueChange := 0.0;
      dialogueAvailable := false;
      scheduled := None;
      currentDialogueText := None;
      this.nameBoxActive := nameBoxActive;
      this.nameText := nameText;
      log := [];
    }

    method Emit(e: Event)
      requires textArea.buffer.Valid()
      modifies this`log
      ensures View() == DialogueBoxModel.Emit(old(View()), e)
    {
      log := log + [e];
    }

    method AssertState(s: BoxState)
      requires textArea.buffer.Valid()
      modifies this`log
      ensures View() == DialogueBoxModel.AssertState(old(View()), s)
    {
      if state != s {
        Emit(AssertionFailed);
      }
    }

    method TrySchedule(delay: real)
      requires textArea.buffer.Valid()
      modifies this`scheduled
      ensures View() == DialogueBoxModel.TrySchedule(old(View()), delay)
    {
      if dialogueAvailable {
        scheduled := Some(StartScheduledStep(delay, timeAfterDialogueChange));
      }
    }

    method TryRemoveSchedule()
      requires textArea.buffer.Valid()
      modifies this`scheduled
      ensures View() == DialogueBoxModel.TryRemoveSchedule(old(View()))
    {
      scheduled := None;
    }

    method BeginAuto()
      requires textArea.buffer.Valid()
      modifies this
      ensures View() == DialogueBoxModel.BeginAuto(old(View()), config)
    {
      AssertState(Normal);
      state := Auto;
      match currentDialogueText
      case None => Emit(NullReferenceThrown);
      case Some(line) => TrySchedule(AutoScheduledTime(config, line));
    }

    method StopAuto()
      requires textArea.buffer.Valid()
      modifies this
      ensures View() == DialogueBoxModel.StopAuto(old(View()))
    {
      AssertState(Auto);
      state := Normal;
      TryRemoveSchedule();
    }

    method BeginSkip()
      requires textArea.Valid()
      modifies this, textArea, textArea.buffer
      ensures textArea.characterDisplayDuration == old(textArea.characterDisplayDuration)
      ensures textArea.Valid() && View() == DialogueBoxModel.BeginSkip(old(View()), config)
    {
      AssertState(Normal);
      textArea.Flush();
      shouldNeedAnimation := textArea.needAnimation;
      textArea.needAnimation := false;
      state := Skip;
      TrySchedule(config.skipDelay);
    }

    method StopSkip()
      requires textArea.Valid()
      modifies this, textArea
      ensures textArea.characterDisplayDuration == old(textArea.characterDisplayDuration)
      ensures textArea.Valid() && View() == DialogueBoxModel.StopSkip(old(View()))
    {
      AssertState(Skip);
      textArea.needAnimation := shouldNeedAnimation;
      state := Normal;
      TryRemoveSchedule();
    }

    /** The first `switch` of the `State` setter. */
    method ExitState()
      requires textArea.Valid()
      modifies this, textArea
      ensures textArea.characterDisplayDuration == old(textArea.characterDisplayDuration)
      ensures textArea.Valid() && View() == DialogueBoxModel.ExitState(old(View()))
    {
      match state
      case Normal =>
      case Auto => StopAuto(); Emit(AutoModeStops);
      case Skip => StopSkip(); Emit(SkipModeStops);
    }

    /** The second `switch` of the `State` setter. */
    method EnterState(v: BoxState)
      requires textArea.Valid()
      modifies this, textArea, textArea.buffer
      ensures textArea.characterDisplayDuration == old(textArea.characterDisplayDuration)
      ensures textArea.Valid() && View() == DialogueBoxModel.EnterState(old(View()), config, v)
    {
      match v
      case Normal => state := Normal;
      case Auto =>
        var hasLine := currentDialogueText.Some?;
        BeginAuto();
        if hasLine {
          Emit(AutoModeStarts);
        }
      case Skip => BeginSkip(); Emit(SkipModeStarts);
    }

    /** The `State` setter. */
    method SetState(v: BoxState)
      requires textArea.Valid()
      modifies this, textArea, textArea.buffer
      ensures textArea.characterDisplayDuration == old(textArea.characterDisplayDuration)
      ensures textArea.Valid() && View() == DialogueBoxModel.SetState(old(View()), config, v)
    {
      if state == v {
        return;
      }
      ExitState();
      EnterState(v);
    }

    method OverwriteDialogueDisplay(line: string)
      requires textArea.Valid() && MatchFits(config.matcher(line), line)
      modifies this, textArea, textArea.buffer
      ensures textArea.characterDisplayDuration == old(textArea.characterDisplayDuration)
      ensures textArea.Valid() && View() == DialogueBoxModel.OverwriteDialogueDisplay(old(View()), config, line)
    {
      if !config.hasNameWidgets {
        textArea.Set(line);
        return;
      }
      var p := ParseDialogueText(config, line);
      if p.name == "" {
        nameBoxActive := false;
      } else {
        nameBoxActive := true;
        nameText := p.name;
      }
      textArea.Set(p.dialogue);
    }

    method AppendDialogueText(line: string)
      requires textArea.Valid()
      modifies textArea.buffer
      ensures textArea.Valid() && View() == DialogueBoxModel.AppendDialogueText(old(View()), line)
    {
      textArea.Append(line + "\n\n");
    }

    method SetSchedule()
      requires textArea.buffer.Valid()
      modifies this
      ensures View() == DialogueBoxModel.SetSchedule(old(View()), config)
    {
      TryRemoveSchedule();
      match state {
        case Normal =>
        case Auto =>
          match currentDialogueText {
            case None => Emit(NullReferenceThrown);
            case Some(line) => TrySchedule(AutoScheduledTime(config, line));
          }
        case Skip => TrySchedule(config.skipDelay);
      }
    }

    /** `OnDialogueChanged`. */
    method OnDialogueChanged(line: string)
      requires Valid() && MatchFits(config.matcher(line), line)
      modifies this, textArea, textArea.buffer
      ensures textArea.characterDisplayDuration == old(textArea.characterDisplayDuration)
      ensures Valid() && View() == DialogueBoxModel.OnDialogueChanged(old(View()), config, line)
    {
      DialogueChangedKeepsConsistent(View(), config, line);
      timeAfterDialogueChange := 0.0;
      dialogueAvailable := true;
      currentDialogueText := Some(line);
      match config.updateMode {
        case Overwrite => OverwriteDialogueDisplay(line);
        case Append => AppendDialogueText(line);
      }
      SetSchedule();
    }

    /** `NewPage`. */
    method NewPage()
      requires Valid() && MatchFits(config.matcher(""), "")
      modifies this, textArea, textArea.buffer
      ensures textArea.characterDisplayDuration == old(textArea.characterDisplayDuration)
      ensures Valid() && View() == DialogueBoxModel.NewPage(old(View()), config)
    {
      NewPageKeepsConsistent(View(), config);
      OverwriteDialogueDisplay("");
    }

    /** `OnBranchOcurrs`. */
    method OnBranchOccurs()
      requires Valid()
      modifies this, textArea, textArea.buffer
      ensures textArea.characterDisplayDuration == old(textArea.characterDisplayDuration)
      ensures Valid() && View() == DialogueBoxModel.OnBranchOccurs(old(View()), config)
    {
      BranchOccursKeepsConsistent(View(), config);
      stateBeforeBranch := state;
      SetState(Normal);
    }

    /** `OnBranchSelected`. */
    method OnBranchSelected()
      requires Valid()
      modifies this, textArea, textArea.buffer
      ensures textArea.characterDisplayDuration == old(textArea.characterDisplayDuration)
      ensures Valid() && View() == DialogueBoxModel.OnBranchSelected(old(View()), config)
    {
      BranchSelectedKeepsConsistent(View(), config);
      AssertState(Normal);
      match stateBeforeBranch
      case Normal =>
      case Auto => SetState(if config.continueAutoAfterBranch then Auto else Normal);
      case Skip => SetState(if config.continueSkipAfterBranch then Skip else Normal);
    }

    /** `OnCurrentRouteEnded`. */
    method OnCurrentRouteEnded()
      requires Valid()
      modifies this, textArea, textArea.buffer
      ensures textArea.characterDisplayDuration == old(textArea.characterDisplayDuration)
      ensures Valid() && View() == DialogueBoxModel.OnCurrentRouteEnded(old(View()), config)
    {
      RouteEndedKeepsConsistent(View(), config);
      SetState(Normal);
    }

    /** `OnDialogueWillChange`, that is `StopTimer`. */
    method OnDialogueWillChange()
      requires Valid()
      modifies this
      ensures Valid() && View() == DialogueBoxModel.OnDialogueWillChange(old(View()))
    {
      timeAfterDialogueChange := 0.0;
      dialogueAvailable := false;
    }

    /** `OnPointerClick`. */
    method OnPointerClick()
      requires Valid()
      modifies this, textArea, textArea.buffer
      ensures textArea.characterDisplayDuration == old(textArea.characterDisplayDuration)
      ensures Valid() && View() == DialogueBoxModel.OnPointerClick(old(View()), config)
    {
      ClickKeepsConsistent(View(), config);
      var animating := textArea.IsAnimating();
      if state == Normal && !animating {
        Emit(StepRequested);
        return;
      }
      if animating {
        textArea.Flush();
      }
      SetState(Normal);
    }

    /** `Update`. */
    method Update(dt: real)
      requires Valid()
      modifies this`timeAfterDialogueChange
      ensures Valid() && View() == DialogueBoxModel.Update(old(View()), dt)
    {
      if dialogueAvailable {
        timeAfterDialogueChange := timeAfterDialogueChange + dt;
      }
    }

    /** The scheduled-step coroutine resumed once; `canStepForward` is
        `gameState.canStepForward` at that moment. */
    method ResumeScheduledStep(canStepForward: bool)
      requires Valid()
      modifies this, textArea, textArea.buffer
      ensures textArea.characterDisplayDuration == old(textArea.characterDisplayDuration)
      ensures Valid() && View() == DialogueBoxModel.ResumeScheduledStep(old(View()), config, canStepForward)
    {
      ResumeKeepsConsistent(View(), config, canStepForward);
      match scheduled
      case None =>
      case Some(s) =>
        match s.phase
        case Waiting =>
          if s.delay <= timeAfterDialogueChange {
            scheduled := Some(s.(phase := Paused));
          }
        case Paused =>
          scheduled := None;
          if canStepForward {
            Emit(StepRequested);
          } else {
            SetState(Normal);
          }
    }
  }
}
