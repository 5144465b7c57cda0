/** The dialogue-box mode registries (`DialogueBoxesManager` and
    `DialogueBoxManager`) as functions on values: building the dictionary from
    the managed game objects (`Awake`), choosing the default mode (`Start`), the
    `Mode` setter, and `CurrentDialogueBoxController`. Game objects are
    numbered by their place in `DialogueBoxControllerGameObjects`; each may
    lack the controller component, and the component may or may not be a
    `MonoBehaviour`. `activeSelf` is one flag per game object. */
module ModeRegistry {
  import opened Optional
  import opened Strings

  /** The `IDialogueBoxController` component of a game object. */
  datatype Component = Component(typeName: string, isBehaviour: bool)

  /** What `Start` records as the mode: the dictionary key
      (`DialogueBoxesManager`) or the controller's own `Type`
      (`DialogueBoxManager`). */
  datatype StartRecord = LowerCaseKey | DeclaredType

  /** The dictionary: its keys in insertion order (the order it enumerates
      them) and, for each key, the game object whose controller it holds. */
  datatype Registry = Registry(order: seq<string>, index: map<string, nat>)

  /** The dictionary `Awake` leaves behind and the exception that stopped it. */
  datatype Built = Built(reg: Registry, fault: Option<Fault>)

  /** The activation flags of the game objects and `_mode`. */
  datatype Managed = Managed(active: seq<bool>, mode: Option<string>)

  /** The outcome of the `Mode` setter. */
  datatype Switched = Switched(after: Managed, fault: Option<Fault>)

  /** The dictionary key of a controller. */
  function Key(c: Component): string {
    ToLower(c.typeName)
  }

  /** Every key is listed once, the listed keys are the keys of the map, and
      each key belongs to a game object that has a controller with that key. */
  ghost predicate WellFormed(objs: seq<Option<Component>>, reg: Registry) {
    && (forall i, j :: 0 <= i < j < |reg.order| ==> reg.order[i] != reg.order[j])
    && (forall k :: k in reg.index <==> k in reg.order)
    && (forall k :: k in reg.index ==>
          reg.index[k] < |objs| && objs[reg.index[k]].Some? && Key(objs[reg.index[k]].value) == k)
  }

  /** One iteration of the `Awake` loop: `GetComponent` then `Add`. A missing
      component throws on `controller.Type`; a present key throws in `Add`. */
  function AddObject(b: Built, objs: seq<Option<Component>>, i: nat): Built
    requires i < |objs|
  {
    if b.fault.Some? then b
    else match objs[i]
      case None => b.(fault := Some(NullReference))
      case Some(c) =>
        if Key(c) in b.reg.index then b.(fault := Some(DuplicateKey))
        else Built(Registry(b.reg.order + [Key(c)], b.reg.index[Key(c) := i]), None)
  }

  /** `Awake` over the first `n` game objects. */
  function BuildPrefix(objs: seq<Option<Component>>, n: nat): Built
    requires n <= |objs|
  {
    if n == 0 then Built(Registry([], map[]), None)
    else AddObject(BuildPrefix(objs, n - 1), objs, n - 1)
  }

  function Build(objs: seq<Option<Component>>): Built {
    BuildPrefix(objs, |objs|)
  }

  /** Every game object has a controller and no two lower-cased types agree. */
  predicate Registrable(objs: seq<Option<Component>>, n: nat)
    requires n <= |objs|
  {
    && (forall i :: 0 <= i < n ==> objs[i].Some?)
    && (forall i, j :: 0 <= i < j < n && objs[i].Some? && objs[j].Some? ==>
          Key(objs[i].value) != Key(objs[j].value))
  }

  /** The dictionary is well formed at every stage of `Awake`. */
  lemma {:induction false} BuildWellFormed(objs: seq<Option<Component>>, n: nat)
    requires n <= |objs|
    ensures WellFormed(objs, BuildPrefix(objs, n).reg)
    ensures forall k :: k in BuildPrefix(objs, n).reg.index ==> BuildPrefix(objs, n).reg.index[k] < n
  {
    if n > 0 {
      BuildWellFormed(objs, n - 1);
      var b := BuildPrefix(objs, n - 1);
      if b.fault.None? && objs[n - 1].Some? && Key(objs[n - 1].value) !in b.reg.index {
        var k := Key(objs[n - 1].value);
        var r := BuildPrefix(objs, n).reg;
        assert r.order == b.reg.order + [k] && r.index == b.reg.index[k := n - 1];
        assert forall i :: 0 <= i < |b.reg.order| ==> r.order[i] == b.reg.order[i];
      }
    }
  }

  /** A fault ends `Awake`: nothing after it is registered. */
  lemma {:induction false} BuildStops(objs: seq<Option<Component>>, n: nat, m: nat)
    requires n <= m <= |objs| && BuildPrefix(objs, n).fault.Some?
    ensures BuildPrefix(objs, m) == BuildPrefix(objs, n)
    decreases m
  {
    if m > n {
      BuildStops(objs, n, m - 1);
    }
  }

  /** When `Awake` has run through the first `n` game objects, game object `i`
      is the `i`-th key, registered under its own number. */
  lemma {:induction false} BuildShape(objs: seq<Option<Component>>, n: nat)
    requires n <= |objs| && BuildPrefix(objs, n).fault.None?
    ensures var r := BuildPrefix(objs, n).reg;
      && |r.order| == n
      && forall i :: 0 <= i < n ==>
           objs[i].Some? && r.order[i] == Key(objs[i].value) && r.order[i] in r.index && r.index[r.order[i]] == i
  {
    if n > 0 {
      BuildShape(objs, n - 1);
      BuildWellFormed(objs, n - 1);
      var b := BuildPrefix(objs, n - 1).reg;
      var k := Key(objs[n - 1].value);
      var r := BuildPrefix(objs, n).reg;
      assert r.order == b.order + [k] && r.index == b.index[k := n - 1];
      forall i | 0 <= i < n - 1
        ensures r.order[i] == b.order[i] && r.index[r.order[i]] == i
      {
        assert b.order[i] in b.index;
      }
    }
  }

  /** A prefix of a registrable list is registrable. */
  lemma RegistrablePrefix(objs: seq<Option<Component>>, m: nat, n: nat)
    requires m <= n <= |objs| && Registrable(objs, n)
    ensures Registrable(objs, m)
  {
  }

  /** `Awake` runs through exactly when every game object has a controller and
      the lower-cased types are distinct. */
  lemma {:induction false} BuildSucceeds(objs: seq<Option<Component>>, n: nat)
    requires n <= |objs|
    ensures BuildPrefix(objs, n).fault.None? <==> Registrable(objs, n)
  {
    if n > 0 {
      BuildSucceeds(objs, n - 1);
      var b := BuildPrefix(objs, n - 1);
      if b.fault.Some? {
        if Registrable(objs, n) {
          RegistrablePrefix(objs, n - 1, n);
        }
      } else if objs[n - 1].None? {
        assert !Registrable(objs, n);
      } else {
        BuildShape(objs, n - 1);
        BuildWellFormed(objs, n - 1);
        var k := Key(objs[n - 1].value);
        if k in b.reg.index {
          var j :| 0 <= j < |b.reg.order| && b.reg.order[j] == k;
          assert 0 <= j < n - 1 && objs[j].Some? && Key(objs[j].value) == Key(objs[n - 1].value);
          assert !Registrable(objs, n);
        } else {
          assert BuildPrefix(objs, n).fault.None?;
          forall i, j | 0 <= i < j < n && objs[i].Some? && objs[j].Some?
            ensures Key(objs[i].value) != Key(objs[j].value)
          {
            if j == n - 1 {
              assert b.reg.order[i] in b.reg.index;
            }
          }
          assert Registrable(objs, n);
        }
      }
    }
  }

  /** Two controllers whose types differ only in letter case make `Awake` throw. */
  lemma CaseInsensitiveClash(objs: seq<Option<Component>>, i: nat, j: nat)
    requires i < j < |objs| && objs[i].Some? && objs[j].Some?
    requires ToLower(objs[i].value.typeName) == ToLower(objs[j].value.typeName)
    ensures Build(objs).fault.Some?
  {
    BuildSucceeds(objs, |objs|);
    assert !Registrable(objs, |objs|);
  }

  /** Every key is lower case. */
  lemma KeysLowerCase(objs: seq<Option<Component>>, n: nat, k: string)
    requires n <= |objs| && k in BuildPrefix(objs, n).reg.index
    ensures IsLowerCase(k)
  {
    BuildWellFormed(objs, n);
    ToLowerIdempotent(objs[BuildPrefix(objs, n).reg.index[k]].value.typeName);
  }

  /** `SetActive`: only a `MonoBehaviour` controller's game object is switched. */
  function SetActiveAt(objs: seq<Option<Component>>, active: seq<bool>, i: nat, value: bool): (r: seq<bool>)
    requires i < |objs| == |active| && objs[i].Some?
    ensures |r| == |active|
  {
    if objs[i].value.isBehaviour then active[i := value] else active
  }

  /** The game object whose controller is registered under `k` has a
      `MonoBehaviour` controller. */
  predicate IsBehaviour(objs: seq<Option<Component>>, reg: Registry, k: string)
    requires WellFormed(objs, reg) && k in reg.index
  {
    objs[reg.index[k]].value.isBehaviour
  }

  /** What `Start` records for the controller under key `k`. */
  function Recorded(objs: seq<Option<Component>>, reg: Registry, rec: StartRecord, k: string): string
    requires WellFormed(objs, reg) && k in reg.index
  {
    match rec
    case LowerCaseKey => k
    case DeclaredType => objs[reg.index[k]].value.typeName
  }

  /** One iteration of the `Start` loop, for key `k`. */
  function StartVisit(objs: seq<Option<Component>>, reg: Registry, rec: StartRecord, s: Managed, k: string): (r: Managed)
    requires WellFormed(objs, reg) && k in reg.index && |s.active| == |objs|
    ensures |r.active| == |objs|
  {
    var i := reg.index[k];
    if !objs[i].value.isBehaviour then s
    else if s.mode.Some? then s.(active := s.active[i := false])
    else if !s.active[i] then s
    else s.(mode := Some(Recorded(objs, reg, rec, k)))
  }

  /** The `Start` loop over the first `n` keys in enumeration order. */
  function StartScan(objs: seq<Option<Component>>, reg: Registry, rec: StartRecord, s: Managed, n: nat): (r: Managed)
    requires WellFormed(objs, reg) && n <= |reg.order| && |s.active| == |objs|
    ensures |r.active| == |objs|
  {
    if n == 0 then s else StartVisit(objs, reg, rec, StartScan(objs, reg, rec, s, n - 1), reg.order[n - 1])
  }

  /** Every active game object with a `MonoBehaviour` controller is the one of
      the current mode. */
  ghost predicate ActiveOnlyMode(objs: seq<Option<Component>>, reg: Registry, s: Managed) {
    && WellFormed(objs, reg) && |s.active| == |objs|
    && forall k :: k in reg.index && IsBehaviour(objs, reg, k) && s.active[reg.index[k]] ==> s.mode == Some(k)
  }

  /** Hence at most one managed controller is active. */
  lemma AtMostOneActive(objs: seq<Option<Component>>, reg: Registry, s: Managed, k1: string, k2: string)
    requires ActiveOnlyMode(objs, reg, s)
    requires k1 in reg.index && IsBehaviour(objs, reg, k1) && s.active[reg.index[k1]]
    requires k2 in reg.index && IsBehaviour(objs, reg, k2) && s.active[reg.index[k2]]
    ensures k1 == k2
  {
  }

  /** Distinct keys belong to distinct game objects. */
  lemma IndexInjective(objs: seq<Option<Component>>, reg: Registry, k1: string, k2: string)
    requires WellFormed(objs, reg) && k1 in reg.index && k2 in reg.index && k1 != k2
    ensures reg.index[k1] != reg.index[k2]
  {
  }

  /** Controllers that are not `MonoBehaviour`s, and game objects without a
      controller, are never switched by `Start`. */
  lemma {:induction false} StartIgnoresNonBehaviours(objs: seq<Option<Component>>, reg: Registry, rec: StartRecord, s: Managed, n: nat)
    requires WellFormed(objs, reg) && n <= |reg.order| && |s.active| == |objs|
    ensures var r := StartScan(objs, reg, rec, s, n);
      forall i :: 0 <= i < |objs| && !(objs[i].Some? && objs[i].value.isBehaviour) ==> r.active[i] == s.active[i]
  {
    if n > 0 {
      StartIgnoresNonBehaviours(objs, reg, rec, s, n - 1);
    }
  }

  /** A mode set before `Start` (for instance by the `Mode` setter from another
      `Awake`) makes `Start` deactivate every managed `MonoBehaviour`, the
      controller of that mode included, and keep the mode. */
  lemma {:induction false} StartAfterModeSet(objs: seq<Option<Component>>, reg: Registry, rec: StartRecord, s: Managed, n: nat)
    requires WellFormed(objs, reg) && n <= |reg.order| && |s.active| == |objs| && s.mode.Some?
    ensures var r := StartScan(objs, reg, rec, s, n);
      && r.mode == s.mode
      && forall j :: 0 <= j < n && IsBehaviour(objs, reg, reg.order[j]) ==> !r.active[reg.index[reg.order[j]]]
  {
    if n > 0 {
      StartAfterModeSet(objs, reg, rec, s, n - 1);
      var r0 := StartScan(objs, reg, rec, s, n - 1);
      var k := reg.order[n - 1];
      forall j | 0 <= j < n - 1 && IsBehaviour(objs, reg, reg.order[j])
        ensures !StartScan(objs, reg, rec, s, n).active[reg.index[reg.order[j]]]
      {
        IndexInjective(objs, reg, reg.order[j], k);
      }
    }
  }

  /** The registered controller listed at position `j` is an active
      `MonoBehaviour`. */
  ghost predicate ActiveBehaviourAt(objs: seq<Option<Component>>, reg: Registry, active: seq<bool>, j: nat)
    requires WellFormed(objs, reg) && j < |reg.order| && |active| == |objs|
  {
    IsBehaviour(objs, reg, reg.order[j]) && active[reg.index[reg.order[j]]]
  }

  /** The first position before `n` holding an active `MonoBehaviour`
      controller, or `n` when there is none. */
  ghost function FirstActive(objs: seq<Option<Component>>, reg: Registry, active: seq<bool>, n: nat): (p: nat)
    requires WellFormed(objs, reg) && n <= |reg.order| && |active| == |objs|
    ensures p <= n
    ensures p < n ==> ActiveBehaviourAt(objs, reg, active, p)
    ensures forall j :: 0 <= j < p ==> !ActiveBehaviourAt(objs, reg, active, j)
  {
    if n == 0 then 0
    else
      var p := FirstActive(objs, reg, active, n - 1);
      if p < n - 1 || ActiveBehaviourAt(objs, reg, active, n - 1) then p else n
  }

  /** The `Start` loop invariant when no mode was set before it, after `n`
      keys: the mode is recorded from the first originally active behaviour,
      that one is still active and no other seen so far is, the keys not yet
      seen are untouched, and with no mode found nothing has changed. */
  ghost predicate StartInvariant(objs: seq<Option<Component>>, reg: Registry, rec: StartRecord, s: Managed, r: Managed, n: nat)
    requires WellFormed(objs, reg) && n <= |reg.order| && |s.active| == |objs| && |r.active| == |objs|
  {
    var p := FirstActive(objs, reg, s.active, n);
    && (r.mode.Some? <==> p < n)
    && (p < n ==> r.mode == Some(Recorded(objs, reg, rec, reg.order[p])) && r.active[reg.index[reg.order[p]]])
    && (forall j :: 0 <= j < n && ActiveBehaviourAt(objs, reg, r.active, j) ==> j == p)
    && (forall j :: n <= j < |reg.order| ==> r.active[reg.index[reg.order[j]]] == s.active[reg.index[reg.order[j]]])
    && (p == n ==> r.active == s.active)
  }

  /** Positions other than `n` name game objects other than the one at `n`. */
  lemma OtherPositions(objs: seq<Option<Component>>, reg: Registry, n: nat)
    requires WellFormed(objs, reg) && n < |reg.order|
    ensures forall j :: 0 <= j < |reg.order| && j != n ==> reg.index[reg.order[j]] != reg.index[reg.order[n]]
  {
    forall j | 0 <= j < |reg.order| && j != n
      ensures reg.index[reg.order[j]] != reg.index[reg.order[n]]
    {
      IndexInjective(objs, reg, reg.order[j], reg.order[n]);
    }
  }

  lemma StartStep(objs: seq<Option<Component>>, reg: Registry, rec: StartRecord, s: Managed, n: nat)
    requires WellFormed(objs, reg) && n < |reg.order| && |s.active| == |objs| && s.mode.None?
    requires StartInvariant(objs, reg, rec, s, StartScan(objs, reg, rec, s, n), n)
    ensures StartInvariant(objs, reg, rec, s, StartScan(objs, reg, rec, s, n + 1), n + 1)
  {
    var r0 := StartScan(objs, reg, rec, s, n);
    var r := StartScan(objs, reg, rec, s, n + 1);
    var p := FirstActive(objs, reg, s.active, n);
    var p' := FirstActive(objs, reg, s.active, n + 1);
    var k := reg.order[n];
    var i := reg.index[k];
    OtherPositions(objs, reg, n);
    assert r == StartVisit(objs, reg, rec, r0, k);
    assert r0.active[i] == s.active[i];
    if p < n {
      assert p' == p;
      assert r.mode == r0.mode;
      assert r.active == if IsBehaviour(objs, reg, k) then r0.active[i := false] else r0.active;
      forall j | 0 <= j < n + 1 && ActiveBehaviourAt(objs, reg, r.active, j)
        ensures j == p
      {
        assert j != n;
        assert ActiveBehaviourAt(objs, reg, r0.active, j);
      }
    } else if ActiveBehaviourAt(objs, reg, s.active, n) {
      assert p' == n;
      assert r == r0.(mode := Some(Recorded(objs, reg, rec, k)));
    } else {
      assert p' == n + 1;
      assert r == r0;
    }
  }

  lemma {:induction false} StartScanInvariant(objs: seq<Option<Component>>, reg: Registry, rec: StartRecord, s: Managed, n: nat)
    requires WellFormed(objs, reg) && n <= |reg.order| && |s.active| == |objs| && s.mode.None?
    ensures StartInvariant(objs, reg, rec, s, StartScan(objs, reg, rec, s, n), n)
  {
    if n > 0 {
      StartScanInvariant(objs, reg, rec, s, n - 1);
      StartStep(objs, reg, rec, s, n - 1);
    }
  }

  /** `Start` with no mode set: with no active `MonoBehaviour` controller
      nothing changes; otherwise the mode is what is recorded for the first one
      in enumeration order, which stays active, and every other managed
      behaviour ends inactive. */
  lemma StartChoosesFirstActive(objs: seq<Option<Component>>, reg: Registry, rec: StartRecord, s: Managed)
    requires WellFormed(objs, reg) && |s.active| == |objs| && s.mode.None?
    ensures var r := StartScan(objs, reg, rec, s, |reg.order|);
      var p := FirstActive(objs, reg, s.active, |reg.order|);
      && (p == |reg.order| ==> r == s)
      && (p < |reg.order| ==>
            r.mode == Some(Recorded(objs, reg, rec, reg.order[p])) && r.active[reg.index[reg.order[p]]])
      && (forall k :: k in reg.index && IsBehaviour(objs, reg, k) && r.active[reg.index[k]] ==>
            p < |reg.order| && k == reg.order[p])
  {
    var r := StartScan(objs, reg, rec, s, |reg.order|);
    var p := FirstActive(objs, reg, s.active, |reg.order|);
    StartScanInvariant(objs, reg, rec, s, |reg.order|);
    forall k | k in reg.index && IsBehaviour(objs, reg, k) && r.active[reg.index[k]]
      ensures p < |reg.order| && k == reg.order[p]
    {
      var j :| 0 <= j < |reg.order| && reg.order[j] == k;
      assert ActiveBehaviourAt(objs, reg, r.active, j);
    }
  }

  /** In `DialogueBoxesManager`, `Start` with no mode set leaves only the mode's
      controller active. */
  lemma StartRecordingKeyKeepsOnlyModeActive(objs: seq<Option<Component>>, reg: Registry, s: Managed)
    requires WellFormed(objs, reg) && |s.active| == |objs| && s.mode.None?
    ensures ActiveOnlyMode(objs, reg, StartScan(objs, reg, LowerCaseKey, s, |reg.order|))
  {
    var r := StartScan(objs, reg, LowerCaseKey, s, |reg.order|);
    var p := FirstActive(objs, reg, s.active, |reg.order|);
    StartChoosesFirstActive(objs, reg, LowerCaseKey, s);
    forall k | k in reg.index && IsBehaviour(objs, reg, k) && r.active[reg.index[k]]
      ensures r.mode == Some(k)
    {
      assert Recorded(objs, reg, LowerCaseKey, reg.order[p]) == k;
    }
  }

  /** In `DialogueBoxManager`, when the chosen controller's `Type` is not lower
      case, the recorded mode is not a key of the dictionary. */
  lemma MixedCaseModeUnregistered(objs: seq<Option<Component>>, reg: Registry, s: Managed)
    requires WellFormed(objs, reg) && |s.active| == |objs| && s.mode.None?
    requires var r := StartScan(objs, reg, DeclaredType, s, |reg.order|);
      r.mode.Some? && !IsLowerCase(r.mode.value)
    ensures var r := StartScan(objs, reg, DeclaredType, s, |reg.order|);
      r.mode.value !in reg.index
  {
    var r := StartScan(objs, reg, DeclaredType, s, |reg.order|);
    if r.mode.value in reg.index {
      ToLowerIdempotent(objs[reg.index[r.mode.value]].value.typeName);
    }
  }

  /** The `Mode` setter. The new mode is lower-cased; setting the current mode
      does nothing. For an unregistered new mode the setter logs with
      `Debug.LogFormat` and the format string `"...mode {}"`, whose format item
      has no index, so `String.Format` throws before anything changes.
      Otherwise the old mode's controller is looked up with the indexer, which
      throws for an unregistered old mode, and is deactivated; the new one is
      activated and recorded. */
  function SetModeSpec(objs: seq<Option<Component>>, reg: Registry, s: Managed, value: string): Switched
    requires WellFormed(objs, reg) && |s.active| == |objs|
  {
    var v := ToLower(value);
    if s.mode == Some(v) then Switched(s, None)
    else if v !in reg.index then Switched(s, Some(Format))
    else if s.mode.Some? && s.mode.value !in reg.index then Switched(s, Some(KeyNotFound))
    else
      var a1 := if s.mode.Some? then SetActiveAt(objs, s.active, reg.index[s.mode.value], false) else s.active;
      Switched(Managed(SetActiveAt(objs, a1, reg.index[v], true), Some(v)), None)
  }

  /** The setter ignores letter case. */
  lemma SetModeCaseInsensitive(objs: seq<Option<Component>>, reg: Registry, s: Managed, value: string)
    requires WellFormed(objs, reg) && |s.active| == |objs|
    ensures SetModeSpec(objs, reg, s, value) == SetModeSpec(objs, reg, s, ToLower(value))
  {
    ToLowerIdempotent(value);
  }

  /** Switching modes keeps only the mode's controller active, and a switch to
      another registered mode activates its `MonoBehaviour` controller. Setting
      the current mode again activates nothing, even when `Start` has
      deactivated its controller. */
  lemma SetModeKeepsOnlyModeActive(objs: seq<Option<Component>>, reg: Registry, s: Managed, value: string)
    requires ActiveOnlyMode(objs, reg, s)
    ensures var w := SetModeSpec(objs, reg, s, value);
      && ActiveOnlyMode(objs, reg, w.after)
      && (w.fault.None? ==> w.after.mode == Some(ToLower(value)))
      && (w.fault.None? && s.mode != Some(ToLower(value)) && ToLower(value) in reg.index
            && IsBehaviour(objs, reg, ToLower(value)) ==>
            w.after.active[reg.index[ToLower(value)]])
  {
    var v := ToLower(value);
    var w := SetModeSpec(objs, reg, s, value);
    if s.mode != Some(v) && v in reg.index && !(s.mode.Some? && s.mode.value !in reg.index) {
      forall k | k in reg.index && IsBehaviour(objs, reg, k) && k != v
        ensures !w.after.active[reg.index[k]]
      {
        IndexInjective(objs, reg, k, v);
        if s.mode.Some? && s.mode.value != k {
          IndexInjective(objs, reg, k, s.mode.value);
        }
      }
    }
  }

  /** The setter switches only `MonoBehaviour` controllers' game objects. */
  lemma SetModeIgnoresNonBehaviours(objs: seq<Option<Component>>, reg: Registry, s: Managed, value: string)
    requires WellFormed(objs, reg) && |s.active| == |objs|
    ensures var w := SetModeSpec(objs, reg, s, value);
      forall i :: 0 <= i < |objs| && !(objs[i].Some? && objs[i].value.isBehaviour) ==> w.after.active[i] == s.active[i]
  {
  }

  /** A switch to an unregistered mode throws `FormatException` and changes
      nothing; a switch to a registered mode from a registered or absent one
      succeeds and records it. */
  lemma UnknownModeRejected(objs: seq<Option<Component>>, reg: Registry, s: Managed, value: string)
    requires WellFormed(objs, reg) && |s.active| == |objs| && s.mode != Some(ToLower(value))
    ensures var w := SetModeSpec(objs, reg, s, value);
      && (ToLower(value) !in reg.index <==> w == Switched(s, Some(Format)))
      && (ToLower(value) in reg.index && ModeRegistered(reg, s) ==>
            w.fault.None? && w.after.mode == Some(ToLower(value)))
  {
  }

  /** The mode is absent or a key of the dictionary. */
  predicate ModeRegistered(reg: Registry, s: Managed) {
    s.mode.None? || s.mode.value in reg.index
  }

  /** The setter never records an unregistered mode. */
  lemma SetModeKeepsModeRegistered(objs: seq<Option<Component>>, reg: Registry, s: Managed, value: string)
    requires WellFormed(objs, reg) && |s.active| == |objs| && ModeRegistered(reg, s)
    ensures ModeRegistered(reg, SetModeSpec(objs, reg, s, value).after)
    ensures SetModeSpec(objs, reg, s, value).fault != Some(KeyNotFound)
  {
  }

  /** In `DialogueBoxesManager`, which records the key, `Start` keeps the mode
      registered, so (with SetModeKeepsModeRegistered) its setter can never
      reach the indexer's `KeyNotFoundException`. */
  lemma {:induction false} StartKeepsModeRegistered(objs: seq<Option<Component>>, reg: Registry, s: Managed, n: nat)
    requires WellFormed(objs, reg) && n <= |reg.order| && |s.active| == |objs| && ModeRegistered(reg, s)
    ensures ModeRegistered(reg, StartScan(objs, reg, LowerCaseKey, s, n))
  {
    if n > 0 {
      StartKeepsModeRegistered(objs, reg, s, n - 1);
      assert reg.order[n - 1] in reg.index;
    }
  }

  /** In `DialogueBoxManager`, a mode that is not lower case (as `Start` may
      record, see MixedCaseModeUnregistered) can never be switched away from:
      the setter's lower-cased argument never equals it, an unregistered
      target throws `FormatException`, and a registered one makes the lookup
      of the old mode throw `KeyNotFoundException`. */
  lemma MixedCaseModeLocksSetter(objs: seq<Option<Component>>, reg: Registry, s: Managed, next: string)
    requires WellFormed(objs, reg) && |s.active| == |objs|
    requires s.mode.Some? && !IsLowerCase(s.mode.value) && s.mode.value !in reg.index
    ensures SetModeSpec(objs, reg, s, next)
      == Switched(s, Some(if ToLower(next) in reg.index then KeyNotFound else Format))
  {
    ToLowerIdempotent(next);
  }

  /** `CurrentDialogueBoxController`: the game object of the current mode's
      controller, none for an unregistered mode; `TryGetValue` throws on a
      null mode. */
  function Current(reg: Registry, mode: Option<string>): (r: Result<Option<nat>>)
    ensures mode.None? <==> r == Err(ArgumentNull)
    ensures mode.Some? ==> (r.Ok? && r.value.Some? <==> mode.value in reg.index)
    ensures mode.Some? && mode.value in reg.index ==> r == Ok(Some(reg.index[mode.value]))
  {
    match mode
    case None => Err(ArgumentNull)
    case Some(m) => Ok(if m in reg.index then Some(reg.index[m]) else None)
  }
}
