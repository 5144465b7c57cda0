/** The character-by-character reveal of dialogue text (`TextAnimator`). The
    label shows a builder of revealed text; appended text waits in an
    appending buffer and is moved over one character per
    `CharacterDisplayDuration` of accumulated frame time. `Update(dt)` stands
    for one frame, `dt` for `Time.deltaTime`. */
module TextAnimation {

  /** What the reveal depends on: the revealed text (`_sb`), the text still
      waiting in the appending buffer, and `_timeSinceLastAppendChar`. */
  datatype RevealState = RevealState(displayed: string, pending: string, sinceLast: real)

  /** Characters moved and time left over by the reveal loop. */
  datatype Drained = Drained(count: nat, left: real)

  /** The reveal loop from one check of its condition on: `t` is the
      accumulated time and `r` the number of characters still pending. */
  function Rest(t: real, cdd: real, r: nat): Drained
    decreases r
  {
    if t >= cdd && r > 0 then
      var d := Rest(t - cdd, cdd, r - 1);
      Drained(d.count + 1, d.left)
    else Drained(0, t)
  }

  /** The loop moves at most the pending characters, starting from a
      non-negative time leaves a non-negative remainder, stops early only with
      less than one duration left, and with a non-positive duration drains
      everything once it starts. */
  lemma {:induction false} RestBounds(t: real, cdd: real, r: nat)
    ensures Rest(t, cdd, r).count <= r
    ensures t >= 0.0 ==> Rest(t, cdd, r).left >= 0.0
    ensures Rest(t, cdd, r).count < r ==> Rest(t, cdd, r).left < cdd
    ensures cdd <= 0.0 && t >= cdd ==> Rest(t, cdd, r).count == r
    decreases r
  {
    if t >= cdd && r > 0 {
      RestBounds(t - cdd, cdd, r - 1);
    }
  }

  /** The whole `do … while` loop of `Update`, entered with `acc >= cdd` and
      `m` pending characters: it always moves one character, moves all of them
      when the duration is not positive, stops early only once less than one
      duration is left, and never leaves a negative remainder. */
  function Drain(acc: real, cdd: real, m: nat): (d: Drained)
    requires m >= 1 && acc >= cdd
    ensures 1 <= d.count <= m
    ensures d.left >= 0.0
    ensures d.count < m ==> d.left < cdd
    ensures cdd <= 0.0 ==> d.count == m
  {
    RestBounds(acc - cdd, cdd, m - 1);
    var d := Rest(acc - cdd, cdd, m - 1);
    Drained(d.count + 1, d.left)
  }

  /** Every character moved costs exactly one duration of the accumulated time. */
  lemma {:induction false} RestLeft(t: real, cdd: real, r: nat)
    ensures Rest(t, cdd, r).left == t - (Rest(t, cdd, r).count as real) * cdd
    decreases r
  {
    if t >= cdd && r > 0 {
      RestLeft(t - cdd, cdd, r - 1);
      var d := Rest(t - cdd, cdd, r - 1);
      assert (d.count as real + 1.0) * cdd == (d.count as real) * cdd + cdd;
    }
  }

  lemma DrainLeft(acc: real, cdd: real, m: nat)
    requires m >= 1 && acc >= cdd
    ensures Drain(acc, cdd, m).left == acc - (Drain(acc, cdd, m).count as real) * cdd
  {
    var d := Rest(acc - cdd, cdd, m - 1);
    RestLeft(acc - cdd, cdd, m - 1);
    assert (d.count as real + 1.0) * cdd == (d.count as real) * cdd + cdd;
  }

  /** One frame of `TextAnimator.Update` with the given duration per character,
      `NeedAnimation` flag and frame time. */
  function UpdateSpec(s: RevealState, cdd: real, needAnimation: bool, dt: real): RevealState {
    if s.pending == [] then s.(sinceLast := cdd)
    else if !needAnimation then FlushSpec(s)
    else
      var acc := s.sinceLast + dt;
      if acc < cdd then s.(sinceLast := acc)
      else
        var d := Drain(acc, cdd, |s.pending|);
        RevealState(s.displayed + s.pending[..d.count], s.pending[d.count..], d.left)
  }

  /** `TextAnimator.Set`: clears the revealed text and queues `value` behind
      whatever is still waiting in the buffer. */
  function SetSpec(s: RevealState, value: string): RevealState {
    RevealState([], s.pending + value, s.sinceLast)
  }

  /** `TextAnimator.Append`. */
  function AppendSpec(s: RevealState, value: string): RevealState {
    s.(pending := s.pending + value)
  }

  /** `TextAnimator.Flush`: reveals all waiting text at once. */
  function FlushSpec(s: RevealState): RevealState {
    if s.pending == [] then s else RevealState(s.displayed + s.pending, [], s.sinceLast)
  }

  /** A frame moves text from the buffer to the label and loses none: the labelled
      text only grows, and revealed plus waiting text is unchanged. */
  lemma UpdateConserves(s: RevealState, cdd: real, needAnimation: bool, dt: real)
    ensures var r := UpdateSpec(s, cdd, needAnimation, dt);
      && r.displayed + r.pending == s.displayed + s.pending
      && |s.displayed| <= |r.displayed| && r.displayed[..|s.displayed|] == s.displayed
  {
    var r := UpdateSpec(s, cdd, needAnimation, dt);
    if s.pending != [] && needAnimation && s.sinceLast + dt >= cdd {
      var n := Drain(s.sinceLast + dt, cdd, |s.pending|).count;
      assert s.pending[..n] + s.pending[n..] == s.pending;
      assert r.displayed[..|s.displayed|] == s.displayed;
    }
  }

  /** With animation off, a frame with waiting text reveals all of it and keeps the timer. */
  lemma UpdateWithoutAnimation(s: RevealState, cdd: real, dt: real)
    requires s.pending != []
    ensures UpdateSpec(s, cdd, false, dt) == RevealState(s.displayed + s.pending, [], s.sinceLast)
  {
  }

  /** A frame with nothing waiting only resets the timer to one full duration. */
  lemma UpdateIdle(s: RevealState, cdd: real, needAnimation: bool, dt: real)
    requires s.pending == []
    ensures UpdateSpec(s, cdd, needAnimation, dt) == s.(sinceLast := cdd)
  {
  }

  /** The animated frame: below one duration of accumulated time nothing is
      revealed; from one duration on at least one character is, the remainder
      is the accumulated time less one duration per revealed character, and
      text is left waiting only when less than one duration remains. */
  lemma UpdateAnimated(s: RevealState, cdd: real, dt: real)
    requires s.pending != []
    ensures var r := UpdateSpec(s, cdd, true, dt);
      var acc := s.sinceLast + dt;
      var n := |r.displayed| - |s.displayed|;
      && (acc < cdd ==> r == s.(sinceLast := acc))
      && (acc >= cdd ==>
            && 1 <= n <= |s.pending|
            && r.sinceLast >= 0.0
            && r.sinceLast == acc - (n as real) * cdd
            && (r.pending != [] ==> r.sinceLast < cdd)
            && (cdd <= 0.0 ==> r.pending == []))
  {
    var acc := s.sinceLast + dt;
    if acc >= cdd {
      DrainLeft(acc, cdd, |s.pending|);
    }
  }

  /** An idle frame leaves the timer at a full duration, so the first character of
      text appended afterwards appears on the very next animated frame, however short. */
  lemma FirstCharacterAfterIdle(s: RevealState, cdd: real, needAnimation: bool, dt0: real, value: string, dt: real)
    requires s.pending == [] && value != [] && dt >= 0.0
    ensures var r := UpdateSpec(AppendSpec(UpdateSpec(s, cdd, needAnimation, dt0), value), cdd, true, dt);
      |r.displayed| > |s.displayed|
  {
    var s1 := AppendSpec(UpdateSpec(s, cdd, needAnimation, dt0), value);
    assert s1.sinceLast == cdd && s1.pending == value;
    UpdateAnimated(s1, cdd, dt);
  }

  /** `Set` does not discard text still waiting in the buffer: it is revealed
      again ahead of the new value. */
  lemma SetKeepsWaitingText(s: RevealState, value: string)
    ensures SetSpec(s, value).displayed == []
    ensures SetSpec(s, value).pending[..|s.pending|] == s.pending
  {
    assert (s.pending + value)[..|s.pending|] == s.pending;
  }

  /** Flushing reveals everything and a second flush changes nothing. */
  lemma FlushReveals(s: RevealState)
    ensures FlushSpec(s).pending == []
    ensures FlushSpec(s).displayed == s.displayed + s.pending
    ensures FlushSpec(FlushSpec(s)) == FlushSpec(s)
  {
  }

  /** The state after one `Update` per frame time in `dts`. */
  function RevealFrames(s: RevealState, cdd: real, needAnimation: bool, dts: seq<real>): RevealState
    decreases |dts|
  {
    if dts == [] then s else RevealFrames(UpdateSpec(s, cdd, needAnimation, dts[0]), cdd, needAnimation, dts[1..])
  }

  /** With a non-negative timer and duration, frames no shorter than one
      duration reveal at least one character each, so the waiting text is all
      revealed after at most as many frames as it has characters. */
  lemma {:induction false} RevealFramesComplete(s: RevealState, cdd: real, dts: seq<real>)
    requires s.sinceLast >= 0.0 && cdd >= 0.0 && |dts| >= |s.pending|
    requires forall i :: 0 <= i < |dts| ==> dts[i] >= cdd
    ensures RevealFrames(s, cdd, true, dts).pending == []
    ensures RevealFrames(s, cdd, true, dts).displayed == s.displayed + s.pending
    decreases |dts|
  {
    if s.pending == [] {
      RevealFramesIdle(s, cdd, dts);
    } else {
      var s1 := UpdateSpec(s, cdd, true, dts[0]);
      UpdateAnimated(s, cdd, dts[0]);
      UpdateConserves(s, cdd, true, dts[0]);
      assert s1.displayed + s1.pending == s.displayed + s.pending;
      assert |s1.pending| < |s.pending|;
      RevealFramesComplete(s1, cdd, dts[1..]);
    }
  }

  /** Frames with nothing waiting reveal nothing. */
  lemma {:induction false} RevealFramesIdle(s: RevealState, cdd: real, dts: seq<real>)
    requires s.pending == []
    ensures RevealFrames(s, cdd, true, dts).pending == []
    ensures RevealFrames(s, cdd, true, dts).displayed == s.displayed
    decreases |dts|
  {
    if dts != [] {
      RevealFramesIdle(UpdateSpec(s, cdd, true, dts[0]), cdd, dts[1..]);
    }
  }

  /** `TextAppendingBuffer`: the text waiting to be revealed is `text[currentIndex..]`;
      consumed characters are dropped once there are `removeThreshold` of them
      or the buffer is used up. */
  class TextAppendingBuffer {
    var text: string
    var currentIndex: nat
    const removeThreshold: int

    /** Clean-up runs after every consumption, so the consumed prefix is either
        empty or shorter than the threshold and than the text. */
    ghost predicate Valid()
      reads this
    {
      currentIndex <= |text| && (currentIndex == 0 || (currentIndex < removeThreshold && currentIndex < |text|))
    }

    /** The `Text` property: the characters not yet consumed. */
    function Text(): string
      reads this
      requires currentIndex <= |text|
    {
      text[currentIndex..]
    }

    /** The `IsEmpty` property. */
    function IsEmpty(): (b: bool)
      reads this
      requires currentIndex <= |text|
      ensures b <==> Text() == []
    {
      currentIndex == |text|
    }

    constructor (value: string, removeThreshold: int)
      ensures Valid() && text == value && currentIndex == 0 && this.removeThreshold == removeThreshold
    {
      text := value;
      currentIndex := 0;
      this.removeThreshold := removeThreshold;
    }

    /** Consumes and returns the first waiting character. */
    method Next() returns (c: char)
      requires Valid() && !IsEmpty()
      modifies this
      ensures Valid()
      ensures c == old(Text())[0] && Text() == old(Text())[1..]
    {
      c := text[currentIndex];
      currentIndex := currentIndex + 1;
      TryCleanUpUnused();
    }

    method Clear()
      modifies this
      ensures Valid() && text == [] && currentIndex == 0
    {
      text := "";
      currentIndex := 0;
    }

    /** Queues `value`. The clean-up it runs first never fires, since the previous
        consumption already cleaned up. */
    method Append(value: string)
      requires Valid()
      modifies this
      ensures Valid()
      ensures text == old(text) + value && currentIndex == old(currentIndex)
      ensures Text() == old(Text()) + value
    {
      TryCleanUpUnused();
      text := text + value;
    }

    /** Drops the consumed prefix when it has reached the threshold or covers the
        whole text; the waiting characters are the same either way. */
    method TryCleanUpUnused()
      requires currentIndex <= |text|
      modifies this
      ensures Valid()
      ensures Text() == old(Text())
      ensures if old(currentIndex) != 0 && (old(currentIndex) >= removeThreshold || old(currentIndex) == old(|text|))
              then currentIndex == 0 && text == old(Text())
              else currentIndex == old(currentIndex) && text == old(text)
    {
      if currentIndex == 0 {
        return;
      }
      if currentIndex >= removeThreshold || IsEmpty() {
        text := text[currentIndex..];
        currentIndex := 0;
      }
    }
  }

  /** `TextAnimator`: `uiText` is the label's text, `sb` the revealed text. */
  class TextAnimator {
    var uiText: string
    var sb: string
    const buffer: TextAppendingBuffer
    var characterDisplayDuration: real
    var needAnimation: bool
    var timeSinceLastAppendChar: real

    /** Every change to the revealed text ends by showing it on the label. */
    ghost predicate Valid()
      reads this, buffer
    {
      buffer.Valid() && uiText == sb
    }

    ghost function State(): RevealState
      reads this, buffer
      requires buffer.Valid()
    {
      RevealState(sb, buffer.Text(), timeSinceLastAppendChar)
    }

    /** Whether characters are still waiting to be revealed. */
    function IsAnimating(): (b: bool)
      reads this, buffer
      requires buffer.Valid()
      ensures b <==> State().pending != []
    {
      !buffer.IsEmpty()
    }

    /** `Awake`: the builder starts from the label's text; the buffer is empty
        with the default threshold of 20. */
    constructor (labelText: string, characterDisplayDuration: real, needAnimation: bool)
      ensures Valid() && fresh(buffer)
      ensures State() == RevealState(labelText, [], 0.0) && uiText == labelText
      ensures buffer.removeThreshold == 20
      ensures this.characterDisplayDuration == characterDisplayDuration && this.needAnimation == needAnimation
    {
      uiText := labelText;
      sb := labelText;
      buffer := new TextAppendingBuffer("", 20);
      this.characterDisplayDuration := characterDisplayDuration;
      this.needAnimation := needAnimation;
      timeSinceLastAppendChar := 0.0;
    }

    method Set(value: string)
      requires Valid()
      modifies this, buffer
      ensures Valid() && State() == SetSpec(old(State()), value)
      ensures characterDisplayDuration == old(characterDisplayDuration) && needAnimation == old(needAnimation)
    {
      sb := "";
      Append(value);
      ForceUpdate();
    }

    method Append(value: string)
      requires buffer.Valid()
      modifies buffer
      ensures buffer.Valid() && State() == AppendSpec(old(State()), value)
    {
      buffer.Append(value);
    }

    method Flush()
      requires Valid()
      modifies this, buffer
      ensures Valid() && State() == FlushSpec(old(State()))
      ensures characterDisplayDuration == old(characterDisplayDuration) && needAnimation == old(needAnimation)
    {
      if buffer.IsEmpty() {
        return;
      }
      sb := sb + buffer.Text();
      buffer.Clear();
      ForceUpdate();
    }

    /** Shows the revealed text on the label. */
    method ForceUpdate()
      modifies this`uiText
      ensures uiText == sb
    {
      uiText := sb;
    }

    /** One frame. */
    method Update(dt: real)
      requires Valid()
      modifies this, buffer
      ensures Valid()
      ensures State() == UpdateSpec(old(State()), characterDisplayDuration, needAnimation, dt)
      ensures characterDisplayDuration == old(characterDisplayDuration) && needAnimation == old(needAnimation)
    {
      if buffer.IsEmpty() {
        timeSinceLastAppendChar := characterDisplayDuration;
        return;
      }
      if !needAnimation {
        Flush();
        return;
      }
      timeSinceLastAppendChar := timeSinceLastAppendChar + dt;
      if timeSinceLastAppendChar < characterDisplayDuration {
        return;
      }
      RevealDue();
      ForceUpdate();
    }

    /** The `do … while` loop of `Update`: moves characters while a full
        duration of accumulated time remains, at least one. */
    method RevealDue()
      requires buffer.Valid() && !buffer.IsEmpty() && timeSinceLastAppendChar >= characterDisplayDuration
      modifies buffer, this`sb, this`timeSinceLastAppendChar
      ensures buffer.Valid()
      ensures var d := Drain(old(timeSinceLastAppendChar), characterDisplayDuration, |old(buffer.Text())|);
        && sb == old(sb) + old(buffer.Text())[..d.count]
        && buffer.Text() == old(buffer.Text())[d.count..]
        && timeSinceLastAppendChar == d.left
    {
      ghost var p0 := buffer.Text();
      var cdd := characterDisplayDuration;
      var t := timeSinceLastAppendChar;
      var revealed := sb;
      ghost var d0 := sb;
      ghost var total := Drain(t, cdd, |p0|);
      var c := buffer.Next();
      revealed := revealed + [c];
      t := t - cdd;
      ghost var k := 1;
      assert p0[..1] == [c];
      while t >= cdd && !buffer.IsEmpty()
        invariant buffer.Valid() && 1 <= k <= |p0| && k <= total.count
        invariant revealed == d0 + p0[..k] && buffer.Text() == p0[k..]
        invariant Rest(t, cdd, |p0| - k) == Drained(total.count - k, total.left)
        decreases |p0| - k
      {
        c := buffer.Next();
        assert c == p0[k];
        assert p0[..k + 1] == p0[..k] + [c];
        revealed := revealed + [c];
        t := t - cdd;
        k := k + 1;
      }
      assert |p0| - k == 0 || t < cdd;
      sb := revealed;
      timeSinceLastAppendChar := t;
    }
  }
}
