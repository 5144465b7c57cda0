/** The target-based transition engine (`NovaAnimation`): a registry of
    in-flight transitions keyed by property ID, one per-tick task per entry.
    Unity's coroutine runtime is replaced by explicit resumptions: `Tick(dt)`
    resumes every running task once, `dt` standing for `Time.deltaTime`. */
module Animation {

  /** `Mathf.Clamp01`. */
  function Clamp01(x: real): (r: real)
    ensures 0.0 <= r <= 1.0
    ensures 0.0 <= x <= 1.0 ==> r == x
  {
    if x < 0.0 then 0.0 else if x > 1.0 then 1.0 else x
  }

  /** `x` lies on the segment between `a` and `b`, whichever is larger. */
  predicate Between(x: real, a: real, b: real) {
    (a <= x <= b) || (b <= x <= a)
  }

  /** The product `x * u`, kept behind a function so that the bounds below are
      stated on one term the interpolation reuses. */
  function Scale(x: real, u: real): real {
    x * u
  }

  lemma ScaleUp(x: real, u: real)
    requires x >= 0.0 && 0.0 <= u <= 1.0
    ensures 0.0 <= Scale(x, u) <= x
  {
  }

  lemma ScaleDown(x: real, u: real)
    requires x <= 0.0 && 0.0 <= u <= 1.0
    ensures x <= Scale(x, u) <= 0.0
  {
  }

  /** `Mathf.Lerp`: the interpolant between `a` and `b` at the clamped parameter `t`. */
  function Lerp(a: real, b: real, t: real): (r: real)
    ensures Between(r, a, b)
    ensures t <= 0.0 ==> r == a
    ensures t >= 1.0 ==> r == b
  {
    var u := Clamp01(t);
    if b >= a then ScaleUp(b - a, u); a + Scale(b - a, u)
    else ScaleDown(b - a, u); a + Scale(b - a, u)
  }

  /** `AnimationEntry`: one transition of one property. */
  datatype Entry = Entry(startValue: real, targetValue: real, duration: real, timeElapsed: real)

  /** `AnimationEntry.SetTransition`: restart from `from` towards `to` over `duration`. */
  function SetTransition(from: real, to: real, duration: real): Entry {
    Entry(from, to, duration, 0.0)
  }

  /** The entry invariant every live entry keeps: the elapsed time is either
      non-negative (it starts at 0 and only grows) or past the duration (after
      `Stop`, which may make it negative for a negative duration). */
  predicate WellTimed(e: Entry) {
    e.timeElapsed >= 0.0 || e.timeElapsed > e.duration
  }

  /** `AnimationEntry.Stop`: push the elapsed time past the duration; the value
      is only finalised by the task's next resumption. */
  function StopEntry(e: Entry): (s: Entry)
    ensures s.timeElapsed > s.duration && WellTimed(s)
    ensures s.startValue == e.startValue && s.targetValue == e.targetValue && s.duration == e.duration
  {
    e.(timeElapsed := e.duration + 1.0)
  }

  /** What one resumption of a task does: either it writes the exact target and
      ends (the entry is removed), or it writes an interpolated value and
      continues with the advanced entry. */
  datatype Resumption = Finished(value: real) | Continued(value: real, entry: Entry)

  /** One iteration of the `AnimationCoroutine` loop body. The interpolation
      branch divides by the duration, and the contract shows that the divisor is
      positive there: no division by zero. */
  function AnimationStep(e: Entry, dt: real): (r: Resumption)
    requires WellTimed(e) && dt >= 0.0
    ensures r.Finished? <==> e.timeElapsed >= e.duration
    ensures r.Finished? ==> r.value == e.targetValue
    ensures r.Continued? ==> 0.0 < e.duration && Between(r.value, e.startValue, e.targetValue)
    ensures r.Continued? ==> r.entry == e.(timeElapsed := e.timeElapsed + dt) && WellTimed(r.entry)
  {
    if e.timeElapsed >= e.duration then
      Finished(e.targetValue)
    else
      assert e.duration > 0.0;
      var t := Clamp01(e.timeElapsed / e.duration);
      Continued(Lerp(e.startValue, e.targetValue, t), e.(timeElapsed := e.timeElapsed + dt))
  }

  predicate NonNegative(dts: seq<real>) {
    forall i :: 0 <= i < |dts| ==> dts[i] >= 0.0
  }

  function Sum(dts: seq<real>): real {
    if dts == [] then 0.0 else dts[0] + Sum(dts[1..])
  }

  /** The outcome of resuming a task once per frame, with the frame times `dts`. */
  function Run(e: Entry, dts: seq<real>): Resumption
    requires WellTimed(e) && |dts| > 0 && NonNegative(dts)
    decreases |dts|
  {
    match AnimationStep(e, dts[0])
    case Finished(v) => Finished(v)
    case Continued(v, next) => if |dts| == 1 then Continued(v, next) else Run(next, dts[1..])
  }

  /** Exact snap: once the frame times before the last resumption add up to the
      remaining duration, the task has written exactly the target and ended. */
  lemma {:induction false} RunReachesTarget(e: Entry, dts: seq<real>)
    requires WellTimed(e) && |dts| > 0 && NonNegative(dts)
    requires e.timeElapsed + Sum(dts[..|dts| - 1]) >= e.duration
    ensures Run(e, dts) == Finished(e.targetValue)
    decreases |dts|
  {
    if e.timeElapsed < e.duration {
      var next := e.(timeElapsed := e.timeElapsed + dts[0]);
      assert dts[..|dts| - 1] != [];
      assert dts[..|dts| - 1][1..] == dts[1..][..|dts| - 2];
      RunReachesTarget(next, dts[1..]);
    }
  }

  /** Every value a task writes lies between the start and the target of its
      entry, and the target is never changed by running. */
  lemma {:induction false} RunStaysBetween(e: Entry, dts: seq<real>)
    requires WellTimed(e) && |dts| > 0 && NonNegative(dts)
    ensures Between(Run(e, dts).value, e.startValue, e.targetValue)
    ensures Run(e, dts).Continued? ==> Run(e, dts).entry.targetValue == e.targetValue
                                       && Run(e, dts).entry.startValue == e.startValue
    decreases |dts|
  {
    match AnimationStep(e, dts[0])
    case Finished(v) =>
    case Continued(v, next) =>
      if |dts| > 1 {
        RunStaysBetween(next, dts[1..]);
      }
  }

  /** A freshly set or retargeted transition continues from the current value:
      its first resumption writes that value again (no jump back to an older
      start), unless the duration is not positive, in which case it snaps. */
  lemma RetargetContinuesFromCurrent(current: real, target: real, duration: real, dt: real)
    requires dt >= 0.0
    ensures duration > 0.0 ==> AnimationStep(SetTransition(current, target, duration), dt)
                               == Continued(current, Entry(current, target, duration, dt))
    ensures duration <= 0.0 ==> AnimationStep(SetTransition(current, target, duration), dt)
                                == Finished(target)
  {
  }

  /** A stopped entry is finalised to its target by the very next resumption. */
  lemma StoppedFinishesNext(e: Entry, dt: real)
    requires dt >= 0.0
    ensures AnimationStep(StopEntry(e), dt) == Finished(e.targetValue)
  {
  }

  predicate AllWellTimed(m: map<string, Entry>) {
    forall id :: id in m ==> WellTimed(m[id])
  }

  /** The registry after every task has been resumed once: finished entries are
      removed, the others advanced. */
  function TickEntries(m: map<string, Entry>, dt: real): (r: map<string, Entry>)
    requires AllWellTimed(m) && dt >= 0.0
    ensures r.Keys <= m.Keys && AllWellTimed(r)
    ensures forall id :: id in m ==> (id !in r <==> m[id].timeElapsed >= m[id].duration)
  {
    map id | id in m && AnimationStep(m[id], dt).Continued? :: AnimationStep(m[id], dt).entry
  }

  /** The registry with every entry stopped: same keys, every entry past its duration. */
  function StopAllEntries(m: map<string, Entry>): (r: map<string, Entry>)
    ensures r.Keys == m.Keys && AllWellTimed(r)
    ensures forall id :: id in r ==> r[id].timeElapsed > r[id].duration
  {
    map id | id in m :: StopEntry(m[id])
  }

  /** After `Stop()` every entry is finalised by the next tick, which empties the registry. */
  lemma StopAllThenTickEmpties(m: map<string, Entry>, dt: real)
    requires dt >= 0.0
    ensures TickEntries(StopAllEntries(m), dt) == map[]
  {
    var s := StopAllEntries(m);
    var r := TickEntries(s, dt);
    assert forall id :: id !in r;
  }

  /** `INovaAnimationProperty`: a named numeric slot owned by someone else. */
  class AnimatedProperty {
    const id: string
    var value: real

    constructor (id: string, value: real)
      ensures this.id == id && this.value == value
    {
      this.id := id;
      this.value := value;
    }
  }

  function Ids(ts: seq<AnimatedProperty>): set<string> {
    set i | 0 <= i < |ts| :: ts[i].id
  }

  lemma IdsConcat(a: seq<AnimatedProperty>, b: seq<AnimatedProperty>)
    ensures Ids(a + b) == Ids(a) + Ids(b)
  {
    var c := a + b;
    forall id | id in Ids(c) ensures id in Ids(a) + Ids(b) {
      var i :| 0 <= i < |c| && c[i].id == id;
      if i < |a| { assert a[i] == c[i]; } else { assert b[i - |a|] == c[i]; }
    }
    forall id | id in Ids(a) + Ids(b) ensures id in Ids(c) {
      if id in Ids(a) {
        var i :| 0 <= i < |a| && a[i].id == id;
        assert c[i] == a[i];
      } else {
        var i :| 0 <= i < |b| && b[i].id == id;
        assert c[|a| + i] == b[i];
      }
    }
  }

  lemma IdsSingle(p: AnimatedProperty)
    ensures Ids([p]) == {p.id}
  {
    assert [p][0] == p;
  }

  predicate DistinctIds(ts: seq<AnimatedProperty>) {
    forall i, j :: 0 <= i < j < |ts| ==> ts[i].id != ts[j].id
  }

  lemma DistinctAppend(ts: seq<AnimatedProperty>, p: AnimatedProperty)
    requires DistinctIds(ts) && p.id !in Ids(ts)
    ensures DistinctIds(ts + [p])
  {
    var u := ts + [p];
    forall i, j | 0 <= i < j < |u| ensures u[i].id != u[j].id {
      assert u[i] == ts[i];
      if j == |ts| {
        assert ts[i].id in Ids(ts);
      } else {
        assert u[j] == ts[j];
      }
    }
  }

  /** The tasks that are still running after one resumption each, in order. */
  function Survivors(ts: seq<AnimatedProperty>, m: map<string, Entry>, dt: real): seq<AnimatedProperty>
    requires AllWellTimed(m) && dt >= 0.0 && Ids(ts) <= m.Keys
  {
    if ts == [] then []
    else
      var last := ts[|ts| - 1];
      assert last.id in Ids(ts);
      assert Ids(ts[..|ts| - 1]) <= Ids(ts);
      Survivors(ts[..|ts| - 1], m, dt)
        + (if AnimationStep(m[last.id], dt).Continued? then [last] else [])
  }

  lemma {:induction false} SurvivorsSubset(ts: seq<AnimatedProperty>, m: map<string, Entry>, dt: real)
    requires AllWellTimed(m) && dt >= 0.0 && Ids(ts) <= m.Keys && DistinctIds(ts)
    ensures Ids(Survivors(ts, m, dt)) == Ids(ts) * TickEntries(m, dt).Keys
    ensures DistinctIds(Survivors(ts, m, dt))
    ensures forall p :: p in Survivors(ts, m, dt) ==> p in ts
    decreases |ts|
  {
    if ts != [] {
      var init := ts[..|ts| - 1];
      var last := ts[|ts| - 1];
      assert ts == init + [last];
      IdsConcat(init, [last]);
      IdsSingle(last);
      SurvivorsSubset(init, m, dt);
      assert last.id !in Ids(init);
      var tail := if AnimationStep(m[last.id], dt).Continued? then [last] else [];
      IdsConcat(Survivors(init, m, dt), tail);
      if tail == [] {
        assert Ids(tail) == {};
      } else {
        IdsSingle(last);
      }
    }
  }

  /** The registry after the tasks `ts` (a prefix of the running tasks) have each been resumed once. */
  function TickPrefix(m: map<string, Entry>, ts: seq<AnimatedProperty>, dt: real): map<string, Entry>
    requires AllWellTimed(m) && dt >= 0.0 && Ids(ts) <= m.Keys
  {
    if ts == [] then m
    else
      var init := ts[..|ts| - 1];
      var last := ts[|ts| - 1];
      IdsConcat(init, [last]);
      assert ts == init + [last];
      IdsSingle(last);
      var r := TickPrefix(m, init, dt);
      var step := AnimationStep(m[last.id], dt);
      if step.Continued? then r[last.id := step.entry] else r - {last.id}
  }

  lemma TickPrefixShape(m: map<string, Entry>, ts: seq<AnimatedProperty>, dt: real)
    requires AllWellTimed(m) && dt >= 0.0 && Ids(ts) <= m.Keys
    ensures TickPrefix(m, ts, dt).Keys <= m.Keys && AllWellTimed(TickPrefix(m, ts, dt))
  {
    forall id | id in TickPrefix(m, ts, dt)
      ensures id in m && WellTimed(TickPrefix(m, ts, dt)[id])
    {
      TickPrefixAt(m, ts, dt, id);
    }
  }

  lemma {:induction false} TickPrefixAt(m: map<string, Entry>, ts: seq<AnimatedProperty>, dt: real, id: string)
    requires AllWellTimed(m) && dt >= 0.0 && Ids(ts) <= m.Keys
    ensures id !in m ==> id !in TickPrefix(m, ts, dt)
    ensures id in m && id !in Ids(ts) ==> id in TickPrefix(m, ts, dt) && TickPrefix(m, ts, dt)[id] == m[id]
    ensures id in Ids(ts) ==>
              var step := AnimationStep(m[id], dt);
              && (id in TickPrefix(m, ts, dt) <==> step.Continued?)
              && (step.Continued? ==> TickPrefix(m, ts, dt)[id] == step.entry)
    decreases |ts|
  {
    if ts != [] {
      var init := ts[..|ts| - 1];
      var last := ts[|ts| - 1];
      assert ts == init + [last];
      IdsConcat(init, [last]);
      IdsSingle(last);
      TickPrefixAt(m, init, dt, id);
    }
  }

  lemma TickPrefixComplete(m: map<string, Entry>, ts: seq<AnimatedProperty>, dt: real)
    requires AllWellTimed(m) && dt >= 0.0 && Ids(ts) == m.Keys
    ensures TickPrefix(m, ts, dt) == TickEntries(m, dt)
  {
    var r := TickPrefix(m, ts, dt);
    var t := TickEntries(m, dt);
    forall id ensures (id in r <==> id in t) && (id in r ==> r[id] == t[id]) {
      TickPrefixAt(m, ts, dt, id);
    }
  }

  /** What resuming the task at index `i` adds to the registry and to the survivors. */
  lemma TickOneMore(m: map<string, Entry>, ts: seq<AnimatedProperty>, i: nat, dt: real)
    requires AllWellTimed(m) && dt >= 0.0 && Ids(ts) <= m.Keys && DistinctIds(ts) && i < |ts|
    ensures Ids(ts[..i]) <= m.Keys && Ids(ts[..i + 1]) <= m.Keys
    ensures var m' := TickPrefix(m, ts[..i], dt);
      var id := ts[i].id;
      var step := AnimationStep(m[id], dt);
      && AllWellTimed(m') && id in m' && m'[id] == m[id]
      && TickPrefix(m, ts[..i + 1], dt) == (if step.Continued? then m'[id := step.entry] else m' - {id})
      && Survivors(ts[..i + 1], m, dt)
           == Survivors(ts[..i], m, dt) + (if step.Continued? then [ts[i]] else [])
  {
    var p := ts[i];
    assert ts[..i + 1][..i] == ts[..i];
    IdsConcat(ts[..i], ts[i..]);
    assert ts[..i] + ts[i..] == ts;
    IdsConcat(ts[..i], [p]);
    assert ts[..i + 1] == ts[..i] + [p];
    IdsSingle(p);
    assert p.id !in Ids(ts[..i]);
    TickPrefixAt(m, ts[..i], dt, p.id);
    TickPrefixShape(m, ts[..i], dt);
  }

  /** Tasks with distinct IDs animate distinct properties. */
  lemma DistinctObjects(ts: seq<AnimatedProperty>, i: nat)
    requires DistinctIds(ts) && i < |ts|
    ensures forall k :: 0 <= k < |ts| && k != i ==> ts[k] != ts[i]
  {
    forall k | 0 <= k < |ts| && k != i ensures ts[k] != ts[i] {
      if k < i { assert ts[k].id != ts[i].id; } else { assert ts[i].id != ts[k].id; }
    }
  }

  /** Adding a new key and removing it again gives back the map, and a well
      timed entry keeps the map well timed. */
  lemma AddThenRemove(m: map<string, Entry>, id: string, e: Entry)
    requires id !in m
    ensures m[id := e] - {id} == m
    ensures AllWellTimed(m) && WellTimed(e) ==> AllWellTimed(m[id := e])
  {
  }

  /** `NovaAnimation`: the registry `_animationEntries` and the running tasks. */
  class NovaAnimation {
    var entries: map<string, Entry>
    /** The running per-tick tasks (one coroutine each), in start order. */
    var tasks: seq<AnimatedProperty>

    /** One task per entry and one entry per task, and every entry well timed. */
    ghost predicate Valid()
      reads this
    {
      DistinctIds(tasks) && Ids(tasks) == entries.Keys && AllWellTimed(entries)
    }

    constructor ()
      ensures Valid() && entries == map[] && tasks == []
    {
      entries := map[];
      tasks := [];
    }

    /** One resumption of the task that animates `p`. */
    method ResumeTask(p: AnimatedProperty, dt: real) returns (finished: bool)
      requires p.id in entries && AllWellTimed(entries) && dt >= 0.0
      modifies this`entries, p
      ensures var r := AnimationStep(old(entries)[p.id], dt);
        && finished == r.Finished?
        && p.value == r.value
        && entries == if finished then old(entries) - {p.id} else old(entries)[p.id := r.entry]
    {
      var e := entries[p.id];
      if e.timeElapsed >= e.duration {
        p.value := e.targetValue;
        entries := entries - {p.id};
        return true;
      }
      var t := Clamp01(e.timeElapsed / e.duration);
      p.value := Lerp(e.startValue, e.targetValue, t);
      entries := entries[p.id := e.(timeElapsed := e.timeElapsed + dt)];
      return false;
    }

    /** `RegisterTransition`. A live entry for the ID is retargeted in place and
        no second task starts. Otherwise a new entry is added and its task
        starts; as with Unity's `StartCoroutine`, its first iteration runs at
        once, in the current frame whose delta time is `dt`. */
    method RegisterTransition(p: AnimatedProperty, target: real, duration: real, dt: real)
      requires Valid() && dt >= 0.0
      modifies this, p
      ensures Valid()
      ensures old(p.id in entries) ==>
        && entries == old(entries)[p.id := SetTransition(old(p.value), target, duration)]
        && tasks == old(tasks) && p.value == old(p.value)
      ensures old(p.id !in entries) ==>
        var r := AnimationStep(SetTransition(old(p.value), target, duration), dt);
        && p.value == r.value
        && (r.Finished? ==> entries == old(entries) && tasks == old(tasks))
        && (r.Continued? ==> entries == old(entries)[p.id := r.entry] && tasks == old(tasks) + [p])
    {
      if p.id in entries {
        entries := entries[p.id := SetTransition(p.value, target, duration)];
        return;
      }
      ghost var e0 := entries;
      assert p.id !in Ids(tasks);
      IdsConcat(tasks, [p]);
      IdsSingle(p);
      DistinctAppend(tasks, p);
      var e := SetTransition(p.value, target, duration);
      AddThenRemove(e0, p.id, e);
      entries := entries[p.id := e];
      var finished := ResumeTask(p, dt);
      if finished {
        assert entries == e0;
      } else {
        tasks := tasks + [p];
        assert entries.Keys == e0.Keys + {p.id};
      }
    }

    /** Resumes the tasks `ts` once each, in order, and returns those that continue. */
    method ResumeAll(ts: seq<AnimatedProperty>, dt: real) returns (kept: seq<AnimatedProperty>)
      requires DistinctIds(ts) && AllWellTimed(entries) && Ids(ts) == entries.Keys && dt >= 0.0
      modifies this`entries, ts
      ensures entries == TickPrefix(old(entries), ts, dt)
      ensures kept == Survivors(ts, old(entries), dt)
      ensures forall k :: 0 <= k < |ts| ==> ts[k].value == AnimationStep(old(entries)[ts[k].id], dt).value
    {
      ghost var e0 := entries;
      kept := [];
      var i := 0;
      while i < |ts|
        invariant 0 <= i <= |ts|
        invariant Ids(ts[..i]) <= e0.Keys
        invariant kept == Survivors(ts[..i], e0, dt)
        invariant entries == TickPrefix(e0, ts[..i], dt)
        invariant forall k :: 0 <= k < i ==> ts[k].value == AnimationStep(e0[ts[k].id], dt).value
        invariant forall k :: i <= k < |ts| ==> ts[k].value == old(ts[k].value)
      {
        var p := ts[i];
        ghost var step := AnimationStep(e0[p.id], dt);
        TickOneMore(e0, ts, i, dt);
        DistinctObjects(ts, i);
        var finished := ResumeTask(p, dt);
        assert finished == step.Finished? && p.value == step.value;
        if !finished {
          kept := kept + [p];
        }
        assert kept == Survivors(ts[..i + 1], e0, dt);
        assert entries == TickPrefix(e0, ts[..i + 1], dt);
        i := i + 1;
      }
      assert ts[..i] == ts;
    }

    /** One frame: every running task is resumed once, in order. */
    method Tick(dt: real)
      requires Valid() && dt >= 0.0
      modifies this, tasks
      ensures Valid()
      ensures entries == TickEntries(old(entries), dt)
      ensures tasks == Survivors(old(tasks), old(entries), dt)
      ensures forall i :: 0 <= i < |old(tasks)| ==>
                old(tasks)[i].value == AnimationStep(old(entries)[old(tasks)[i].id], dt).value
    {
      ghost var e0 := entries;
      var ts := tasks;
      var kept := ResumeAll(ts, dt);
      TickPrefixComplete(e0, ts, dt);
      SurvivorsSubset(ts, e0, dt);
      tasks := kept;
    }

    /** `Stop(propertyId)`: mark a live entry as stopped. An unknown ID changes
        nothing. The value is finalised by the next `Tick`, not immediately. */
    method StopId(id: string)
      requires Valid()
      modifies this`entries
      ensures Valid()
      ensures entries == if id in old(entries) then old(entries)[id := StopEntry(old(entries)[id])]
                         else old(entries)
    {
      if id in entries {
        entries := entries[id := StopEntry(entries[id])];
      }
    }

    /** `Stop(property)`. */
    method StopProperty(p: AnimatedProperty)
      requires Valid()
      modifies this`entries
      ensures Valid()
      ensures entries == if p.id in old(entries) then old(entries)[p.id := StopEntry(old(entries)[p.id])]
                         else old(entries)
    {
      StopId(p.id);
    }

    /** `Stop()`: mark every live entry as stopped; the key set stays the same. */
    method StopAll()
      requires Valid()
      modifies this`entries
      ensures Valid()
      ensures entries == StopAllEntries(old(entries))
    {
      ghost var e0 := entries;
      var pending := entries.Keys;
      while pending != {}
        invariant pending <= e0.Keys && entries.Keys == e0.Keys
        invariant forall id :: id in e0 ==> entries[id] == if id in pending then e0[id] else StopEntry(e0[id])
        decreases pending
      {
        var id :| id in pending;
        entries := entries[id := StopEntry(entries[id])];
        pending := pending - {id};
      }
    }

    /** `OnDestroy`: stops every animation. */
    method OnDestroy()
      requires Valid()
      modifies this`entries
      ensures Valid()
      ensures entries == StopAllEntries(old(entries))
    {
      StopAll();
    }
  }
}
