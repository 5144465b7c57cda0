/** The two dialogue-box mode managers, `DialogueBoxesManager` and
    `DialogueBoxManager`, as one class: they share every member and differ
    only in what `Start` records as the mode, which `startRecord` selects. Each
    method is proved to follow the function of `ModeRegistry` for it. */
module DialogueBoxManagers {
  import opened Optional
  import opened Strings
  import opened ModeRegistry

  class Manager {
    /** `DialogueBoxControllerGameObjects`, each with its controller component if any. */
    const objects: seq<Option<Component>>
    const startRecord: StartRecord
    /** `activeSelf` of each game object. */
    var active: seq<bool>
    /** `_dialogueBoxControllers`: its keys in enumeration order, and the game
        object of each key's controller. */
    var order: seq<string>
    var controllers: map<string, nat>
    /** `_mode`. */
    var mode: Option<string>
    /** The game objects whose controller `NewPage` was forwarded to, in order. */
    var newPages: seq<nat>

    ghost function Reg(): Registry
      reads this
    {
      Registry(order, controllers)
    }

    ghost function State(): Managed
      reads this
    {
      Managed(active, mode)
    }

    ghost predicate Valid()
      reads this
    {
      |active| == |objects| && WellFormed(objects, Reg())
    }

    /** A manager before `Awake`: no dictionary entries and no mode. */
    constructor (objects: seq<Option<Component>>, startRecord: StartRecord, active: seq<bool>)
      requires |active| == |objects|
      ensures Valid() && this.objects == objects && this.startRecord == startRecord
      ensures this.active == active && order == [] && controllers == map[] && mode == None && newPages == []
    {
      this.objects := objects;
      this.startRecord := startRecord;
      this.active := active;
      order := [];
      controllers := map[];
      mode := None;
      newPages := [];
    }

    /** `Awake`: registers each controller under its lower-cased type, and
        stops at the first exception. */
    method Awake() returns (fault: Option<Fault>)
      requires |active| == |objects|
      modifies this`order, this`controllers
      ensures Valid() && Built(Reg(), fault) == Build(objects)
    {
      order := [];
      controllers := map[];
      var i := 0;
      while i < |objects|
        invariant i <= |objects|
        invariant BuildPrefix(objects, i) == Built(Reg(), None)
      {
        match objects[i] {
          case None =>
            fault := Some(NullReference);
            BuildStops(objects, i + 1, |objects|);
            BuildWellFormed(objects, |objects|);
            return;
          case Some(c) =>
            var key := ToLower(c.typeName);
            if key in controllers {
              fault := Some(DuplicateKey);
              BuildStops(objects, i + 1, |objects|);
              BuildWellFormed(objects, |objects|);
              return;
            }
            order := order + [key];
            controllers := controllers[key := i];
        }
        i := i + 1;
      }
      fault := None;
      BuildWellFormed(objects, |objects|);
    }

    /** `Start`: the first active `MonoBehaviour` controller in enumeration
        order gives the mode; once there is a mode, every later one is
        deactivated. */
    method Start()
      requires Valid()
      modifies this`active, this`mode
      ensures Valid() && State() == StartScan(objects, Reg(), startRecord, old(State()), |order|)
    {
      ghost var s0 := State();
      var i := 0;
      while i < |order|
        invariant i <= |order| && |active| == |objects|
        invariant State() == StartScan(objects, Reg(), startRecord, s0, i)
      {
        var key := order[i];
        var c := objects[controllers[key]].value;
        if !c.isBehaviour {
        } else if mode.Some? {
          active := active[controllers[key] := false];
        } else if active[controllers[key]] {
          mode := Some(if startRecord == LowerCaseKey then key else c.typeName);
        }
        i := i + 1;
      }
    }

    /** `SetActive`. */
    method SetActive(i: nat, value: bool)
      requires i < |objects| == |active| && objects[i].Some?
      modifies this`active
      ensures active == SetActiveAt(objects, old(active), i, value)
    {
      if !objects[i].value.isBehaviour {
        return;
      }
      active := active[i := value];
    }

    /** The `Mode` setter; `fault` is the exception it throws, if any. */
    method SetMode(value: string) returns (fault: Option<Fault>)
      requires Valid()
      modifies this`active, this`mode
      ensures Valid() && Switched(State(), fault) == SetModeSpec(objects, Reg(), old(State()), value)
    {
      var v := ToLower(value);
      if mode == Some(v) {
        return None;
      }
      if v !in controllers {
        return Some(Format);
      }
      var next := controllers[v];
      if mode.Some? {
        if mode.value !in controllers {
          return Some(KeyNotFound);
        }
        SetActive(controllers[mode.value], false);
      }
      SetActive(next, true);
      mode := Some(v);
      fault := None;
    }

    /** `CurrentDialogueBoxController`, as the number of its game object. */
    method CurrentDialogueBoxController() returns (r: Result<Option<nat>>)
      ensures r == Current(Reg(), mode)
      ensures mode.Some? && mode.value in controllers ==> r == Ok(Some(controllers[mode.value]))
    {
      if mode.None? {
        return Err(ArgumentNull);
      }
      if mode.value in controllers {
        return Ok(Some(controllers[mode.value]));
      }
      return Ok(None);
    }

    /** `NewPage`: forwarded to the current controller when there is one. */
    method NewPage() returns (fault: Option<Fault>)
      modifies this`newPages
      ensures match Current(Reg(), mode)
        case Err(f) => fault == Some(f) && newPages == old(newPages)
        case Ok(None) => fault == None && newPages == old(newPages)
        case Ok(Some(i)) => fault == None && newPages == old(newPages) + [i]
    {
      var current := CurrentDialogueBoxController();
      match current
      case Err(f) => fault := Some(f);
      case Ok(None) => fault := None;
      case Ok(Some(i)) =>
        newPages := newPages + [i];
        fault := None;
    }
  }
}
