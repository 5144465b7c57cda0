/** The behaviour of one dialogue box (`DialogueBoxController`) as functions on
    its state. Every event handler, the frame update of the elapsed-time timer
    and one resumption of the scheduled-step coroutine is a function from the
    box's state to its next state. The calls it makes on the story
    (`gameState.Step()`) and the `UnityEvent`s it raises are recorded, in order,
    in `log`. The class in module `DialogueBox` is proved to follow these
    functions. */
module DialogueBoxModel {
  import opened Optional
  import opened Strings
  import opened TextAnimation

  /** `DialogueBoxState`. */
  datatype BoxState = Normal | Auto | Skip

  /** `DialogueUpdateMode`. */
  datatype UpdateMode = Overwrite | Append

  /** What the box makes happen outside itself. */
  datatype Event =
    | AutoModeStarts | AutoModeStops | SkipModeStarts | SkipModeStops
    | StepRequested          // `gameState.Step()`
    | NullReferenceThrown    // `currentDialogueText.Length` before the first line
    | AssertionFailed        // a failed `UnityEngine.Assertions.Assert`, which only logs

  /** Where the `ScheduledStep` coroutine is suspended: in its waiting loop, or
      at the one-frame pause before stepping. */
  datatype Phase = Waiting | Paused

  /** A running `ScheduledStep(delay)` coroutine. */
  datatype ScheduledStep = ScheduledStep(delay: real, phase: Phase)

  /** The outcome of `Regex.Match(text, namePattern)`: the index and length of
      the match and the value of every group (group 0 is the whole match). */
  datatype RegexMatch = NoMatch | Match(index: nat, length: nat, groups: seq<string>)

  /** The serialized settings of a box. `hasNameWidgets` says that both
      `nameBox` and `nameTextArea` are assigned; `matcher` stands for matching
      against `namePattern`. */
  datatype Config = Config(
    updateMode: UpdateMode,
    hasNameWidgets: bool,
    matcher: string -> RegexMatch,
    nameGroup: int,
    continueAutoAfterBranch: bool,
    continueSkipAfterBranch: bool,
    autoWaitTimePerCharacter: real,
    skipDelay: real)

  /** A match lies inside the text it was found in. */
  predicate MatchFits(m: RegexMatch, text: string) {
    m.Match? ==> m.index + m.length <= |text|
  }

  /** The state of a box: its own fields, the reveal state and `NeedAnimation`
      flag of its `dialogueTextArea`, whether `nameBox` is active and the text of
      `nameTextArea`, and the outside effects so far. */
  datatype Box = Box(
    state: BoxState,
    stateBeforeBranch: BoxState,
    shouldNeedAnimation: bool,
    text: RevealState,
    needAnimation: bool,
    timeAfterDialogueChange: real,
    dialogueAvailable: bool,
    scheduled: Option<ScheduledStep>,
    currentDialogueText: Option<string>,
    nameBoxActive: bool,
    nameText: string,
    log: seq<Event>)

  function Emit(b: Box, e: Event): Box {
    b.(log := b.log + [e])
  }

  /** `Assert.AreEqual(State, s, …)`. */
  function AssertState(b: Box, s: BoxState): Box {
    if b.state == s then b else Emit(b, AssertionFailed)
  }

  /** Starting the coroutine runs it up to its first suspension: the waiting
      loop when the delay has not yet elapsed, the one-frame pause otherwise. */
  function StartScheduledStep(delay: real, time: real): ScheduledStep {
    ScheduledStep(delay, if delay > time then Waiting else Paused)
  }

  /** `TrySchedule`. */
  function TrySchedule(b: Box, delay: real): Box {
    if b.dialogueAvailable then b.(scheduled := Some(StartScheduledStep(delay, b.timeAfterDialogueChange)))
    else b
  }

  /** `TryRemoveSchedule`. */
  function TryRemoveSchedule(b: Box): Box {
    b.(scheduled := None)
  }

  /** `GetAutoScheduledTime` for the given line. */
  function AutoScheduledTime(cfg: Config, line: string): real {
    cfg.autoWaitTimePerCharacter * (|line| as real)
  }

  /** `BeginAuto`. The state becomes `Auto` before the delay is computed, so
      before the first line the null text throws and nothing is scheduled. */
  function BeginAuto(b: Box, cfg: Config): Box {
    var b1 := AssertState(b, Normal).(state := Auto);
    match b.currentDialogueText
    case None => Emit(b1, NullReferenceThrown)
    case Some(line) => TrySchedule(b1, AutoScheduledTime(cfg, line))
  }

  /** `StopAuto`. */
  function StopAuto(b: Box): Box {
    TryRemoveSchedule(AssertState(b, Auto).(state := Normal))
  }

  /** `BeginSkip`: reveals the whole text, remembers and clears `NeedAnimation`. */
  function BeginSkip(b: Box, cfg: Config): Box {
    var b1 := AssertState(b, Normal);
    var b2 := b1.(text := FlushSpec(b1.text));
    var b3 := b2.(shouldNeedAnimation := b2.needAnimation, needAnimation := false, state := Skip);
    TrySchedule(b3, cfg.skipDelay)
  }

  /** `StopSkip`: restores `NeedAnimation`. */
  function StopSkip(b: Box): Box {
    TryRemoveSchedule(AssertState(b, Skip).(needAnimation := b.shouldNeedAnimation, state := Normal))
  }

  /** The first `switch` of the `State` setter: leave the current state. */
  function ExitState(b: Box): Box {
    match b.state
    case Normal => b
    case Auto => Emit(StopAuto(b), AutoModeStops)
    case Skip => Emit(StopSkip(b), SkipModeStops)
  }

  /** The second `switch` of the `State` setter: enter `v`. When `BeginAuto`
      throws, `AutoModeStarts` is not raised. */
  function EnterState(b: Box, cfg: Config, v: BoxState): Box {
    match v
    case Normal => b.(state := Normal)
    case Auto =>
      if b.currentDialogueText.Some? then Emit(BeginAuto(b, cfg), AutoModeStarts) else BeginAuto(b, cfg)
    case Skip => Emit(BeginSkip(b, cfg), SkipModeStarts)
  }

  /** The `State` setter. */
  function SetState(b: Box, cfg: Config, v: BoxState): Box {
    if b.state == v then b else EnterState(ExitState(b), cfg, v)
  }

  /** `m.Groups[i].Value`: a group number outside the match gives the empty string. */
  function GroupValue(groups: seq<string>, i: int): string {
    if 0 <= i < |groups| then groups[i] else ""
  }

  datatype Parsed = Parsed(name: string, dialogue: string)

  /** Where the dialogue of a line starts: `m.Length` characters in, whatever
      the index of the match. */
  function DialogueStart(m: RegexMatch): nat {
    if m.Match? then m.length else 0
  }

  /** `ParseDialogueText`: the name is the configured group of the match, and
      the dialogue is what follows the first `m.Length` characters with only
      whitespace cut from each end. */
  function ParseDialogueText(cfg: Config, line: string): (p: Parsed)
    requires MatchFits(cfg.matcher(line), line)
    ensures IsTrimmed(p.dialogue)
    ensures cfg.matcher(line).NoMatch? ==> p.name == ""
    ensures cfg.matcher(line).Match? ==> p.name == GroupValue(cfg.matcher(line).groups, cfg.nameGroup)
    ensures var rest := line[DialogueStart(cfg.matcher(line))..];
      exists i, j :: 0 <= i <= j <= |rest| && p.dialogue == rest[i..j]
        && AllWhitespace(rest[..i]) && AllWhitespace(rest[j..])
  {
    var m := cfg.matcher(line);
    TrimFactors(line[DialogueStart(m)..]);
    Parsed(if m.Match? then GroupValue(m.groups, cfg.nameGroup) else "", Trim(line[DialogueStart(m)..]))
  }

  /** `OverwriteDialogueDisplay`. */
  function OverwriteDialogueDisplay(b: Box, cfg: Config, line: string): Box
    requires MatchFits(cfg.matcher(line), line)
  {
    if !cfg.hasNameWidgets then b.(text := SetSpec(b.text, line))
    else
      var p := ParseDialogueText(cfg, line);
      var b1 := if p.name == "" then b.(nameBoxActive := false) else b.(nameBoxActive := true, nameText := p.name);
      b1.(text := SetSpec(b1.text, p.dialogue))
  }

  /** `AppendDialogueText`. */
  function AppendDialogueText(b: Box, line: string): Box {
    b.(text := AppendSpec(b.text, line + "\n\n"))
  }

  /** `SetSchedule`. */
  function SetSchedule(b: Box, cfg: Config): Box {
    var b1 := TryRemoveSchedule(b);
    match b1.state
    case Normal => b1
    case Auto =>
      (match b1.currentDialogueText
       case None => Emit(b1, NullReferenceThrown)
       case Some(line) => TrySchedule(b1, AutoScheduledTime(cfg, line)))
    case Skip => TrySchedule(b1, cfg.skipDelay)
  }

  /** The `switch` on `dialogueUpdateMode` in `OnDialogueChanged`. */
  function ShowLine(b: Box, cfg: Config, line: string): Box
    requires MatchFits(cfg.matcher(line), line)
  {
    match cfg.updateMode
    case Overwrite => OverwriteDialogueDisplay(b, cfg, line)
    case Append => AppendDialogueText(b, line)
  }

  /** `OnDialogueChanged`. */
  function OnDialogueChanged(b: Box, cfg: Config, line: string): Box
    requires MatchFits(cfg.matcher(line), line)
  {
    var b1 := b.(timeAfterDialogueChange := 0.0, dialogueAvailable := true, currentDialogueText := Some(line));
    SetSchedule(ShowLine(b1, cfg, line), cfg)
  }

  /** `NewPage`. */
  function NewPage(b: Box, cfg: Config): Box
    requires MatchFits(cfg.matcher(""), "")
  {
    OverwriteDialogueDisplay(b, cfg, "")
  }

  /** `OnBranchOcurrs`. */
  function OnBranchOccurs(b: Box, cfg: Config): Box {
    SetState(b.(stateBeforeBranch := b.state), cfg, Normal)
  }

  /** `OnBranchSelected`. */
  function OnBranchSelected(b: Box, cfg: Config): Box {
    var b1 := AssertState(b, Normal);
    match b1.stateBeforeBranch
    case Normal => b1
    case Auto => SetState(b1, cfg, if cfg.continueAutoAfterBranch then Auto else Normal)
    case Skip => SetState(b1, cfg, if cfg.continueSkipAfterBranch then Skip else Normal)
  }

  /** `OnCurrentRouteEnded`. */
  function OnCurrentRouteEnded(b: Box, cfg: Config): Box {
    SetState(b, cfg, Normal)
  }

  /** `OnDialogueWillChange`, that is `StopTimer`. */
  function OnDialogueWillChange(b: Box): Box {
    b.(timeAfterDialogueChange := 0.0, dialogueAvailable := false)
  }

  /** `isAnimating`: characters are still waiting to be revealed. */
  predicate IsAnimating(b: Box) {
    b.text.pending != []
  }

  /** `OnPointerClick`. */
  function OnPointerClick(b: Box, cfg: Config): Box {
    if b.state == Normal && !IsAnimating(b) then Emit(b, StepRequested)
    else
      var b1 := if IsAnimating(b) then b.(text := FlushSpec(b.text)) else b;
      SetState(b1, cfg, Normal)
  }

  /** `Update`: the timer runs only while the dialogue is available. */
  function Update(b: Box, dt: real): Box {
    if b.dialogueAvailable then b.(timeAfterDialogueChange := b.timeAfterDialogueChange + dt) else b
  }

  /** One resumption of the scheduled-step coroutine, after `Update` in the same
      frame. A waiting step re-checks its loop condition and moves to the pause
      once the delay has elapsed; a paused step steps the story if it can and
      otherwise returns the box to `Normal`, and ends. */
  function ResumeScheduledStep(b: Box, cfg: Config, canStepForward: bool): Box {
    match b.scheduled
    case None => b
    case Some(s) =>
      match s.phase
      case Waiting =>
        if s.delay > b.timeAfterDialogueChange then b else b.(scheduled := Some(s.(phase := Paused)))
      case Paused =>
        var b1 := b.(scheduled := None);
        if canStepForward then Emit(b1, StepRequested) else SetState(b1, cfg, Normal)
  }

  /** One frame of the box: `Update`, then the coroutine. */
  function Frame(b: Box, cfg: Config, dt: real, canStepForward: bool): Box {
    ResumeScheduledStep(Update(b, dt), cfg, canStepForward)
  }

  /** One frame per frame time in `dts`. */
  function Frames(b: Box, cfg: Config, dts: seq<real>, canStepForward: bool): Box
    decreases |dts|
  {
    if dts == [] then b else Frames(Frame(b, cfg, dts[0], canStepForward), cfg, dts[1..], canStepForward)
  }

  function TotalTime(dts: seq<real>): real
    decreases |dts|
  {
    if dts == [] then 0.0 else dts[0] + TotalTime(dts[1..])
  }

  predicate NonNegative(dts: seq<real>) {
    forall i :: 0 <= i < |dts| ==> dts[i] >= 0.0
  }

  /** The mode the raised `UnityEvent`s announce: the last start or stop event decides. */
  function AnnouncedState(log: seq<Event>): BoxState
    decreases |log|
  {
    if log == [] then Normal
    else
      match log[|log| - 1]
      case AutoModeStarts => Auto
      case SkipModeStarts => Skip
      case AutoModeStops => Normal
      case SkipModeStops => Normal
      case _ => AnnouncedState(log[..|log| - 1])
  }

  /** The state invariant of the box: no step is scheduled in `Normal`, and
      animation is off in `Skip`. */
  predicate Consistent(b: Box) {
    && (b.state == Normal ==> b.scheduled == None)
    && (b.state == Skip ==> !b.needAnimation)
  }
}
