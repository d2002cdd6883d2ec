/**
 * The typewriter effect of the hero heading (`initializeTypewriterEffect`,
 * script.js:320-398). The heading's trimmed text is captured once, the heading
 * is emptied and marked `typing`, and after the fonts are ready an
 * animation-frame loop reveals the text one prefix at a time. How much is
 * shown depends only on the time elapsed since the first frame, never on how
 * many frames ran. Lengths and prefixes are in UTF-16 code units, as
 * `length` and `substring` count them.
 *
 * `RunState` is everything a frame reads or writes: the closure variables
 * `startTime` and `currentIndex`, whether a frame request (`rafId`) is
 * outstanding, and the heading's text, classes and cursor border. `Animate`
 * is one call of `animate(timestamp)` on that state and `Frames` a run of
 * them; the class `Typewriter` holds the same state in fields and its
 * methods are proved to move it exactly as `Start` and `Animate` say.
 */
module TypewriterEffect {
  import opened Wrappers
  import opened JsText

  /** Milliseconds between two revealed characters. */
  const CharDelay: int := 180
  /** Milliseconds after the first frame before the first character may appear. */
  const InitialDelay: int := 1000

  /**
   * `Math.min(Math.floor(typingTime / charDelay), n)`: the number of
   * characters due `typingTime` ms after the initial delay, for a text of
   * length `n`. Below `n` it is the number of whole `CharDelay` periods that
   * have passed.
   */
  function TargetIndex(typingTime: int, n: nat): (r: nat)
    requires typingTime >= 0
    ensures r <= n
    ensures r < n ==> r * CharDelay <= typingTime < (r + 1) * CharDelay
    ensures r == n ==> n * CharDelay <= typingTime
  {
    if typingTime / CharDelay < n then typingTime / CharDelay else n
  }

  /**
   * Characters shown `elapsed` ms after the start time: none during the
   * initial delay, one more every `CharDelay` ms after it, and all `n` once
   * `InitialDelay + n * CharDelay` ms have passed.
   */
  function Revealed(elapsed: int, n: nat): (r: nat)
    ensures r <= n
    ensures elapsed < InitialDelay ==> r == 0
    ensures elapsed >= InitialDelay + n * CharDelay ==> r == n
    ensures InitialDelay <= elapsed && r < n ==> InitialDelay + r * CharDelay <= elapsed < InitialDelay + (r + 1) * CharDelay
  {
    if elapsed < InitialDelay then 0 else TargetIndex(elapsed - InitialDelay, n)
  }

  /** The reveal position never moves back as time goes on, and never passes the text's end. */
  lemma RevealedMonotone(e1: int, e2: int, n: nat)
    requires e1 <= e2
    ensures Revealed(e1, n) <= Revealed(e2, n) <= n
  {
    var r1, r2 := Revealed(e1, n), Revealed(e2, n);
    if e1 >= InitialDelay && r2 < n {
      assert r1 * CharDelay <= e1 - InitialDelay < (r2 + 1) * CharDelay;
    }
  }

  /** The whole text is due exactly once `InitialDelay + n * CharDelay` ms have passed. */
  lemma RevealedAllIff(elapsed: int, n: nat)
    ensures elapsed >= InitialDelay && Revealed(elapsed, n) == n <==> elapsed >= InitialDelay + n * CharDelay
  {
    if elapsed >= InitialDelay && Revealed(elapsed, n) < n {
      var r := Revealed(elapsed, n);
      assert (r + 1) * CharDelay <= n * CharDelay;
    }
  }

  /** The state one frame reads and writes. */
  datatype RunState = RunState(
    startTime: Option<int>, // closure variable `startTime` (null until the first frame)
    currentIndex: nat,      // closure variable `currentIndex`: characters shown so far
    text: seq<CodeUnit>,    // the heading's `textContent`, in UTF-16 code units
    typing: bool,           // the heading has class `typing`
    complete: bool,         // the heading has class `complete`
    borderHidden: bool,     // `style.borderRight` was set to 'none' (cursor removed)
    framePending: bool)     // a `requestAnimationFrame(animate)` is outstanding

  /** What `if (!startTime)` tests: `null` and `0` both count as unset. */
  predicate StartUnset(start: Option<int>) {
    start == None || start == Some(0)
  }

  /**
   * The state being well formed: the shown text is the prefix of the full
   * text of length `currentIndex`, the `complete` class is set only with the
   * whole text shown, no frame requested and the cursor gone, and until then
   * the `typing` class is on.
   */
  predicate Inv(s: RunState, fullText: seq<CodeUnit>) {
    s.currentIndex <= |fullText| &&
    s.text == fullText[..s.currentIndex] &&
    (s.complete ==> s.currentIndex == |fullText| && !s.framePending && !s.typing && s.borderHidden) &&
    (!s.complete ==> s.typing && !s.borderHidden)
  }

  /** Right after `initializeTypewriterEffect`: heading emptied, class `typing` added, nothing requested. */
  function Initial(): (s: RunState)
    ensures forall fullText :: Inv(s, fullText)
  {
    RunState(None, 0, [], true, false, false, false)
  }

  /** `startAnimation()`: reset the start time and index, request the first frame. */
  function Start(s: RunState): (r: RunState)
    requires s == Initial()
    ensures r.framePending && r.startTime == None && r.currentIndex == 0 && r.text == []
    ensures forall fullText :: Inv(r, fullText)
  {
    s.(startTime := None, currentIndex := 0, framePending := true)
  }

  /** One call of `animate(timestamp)` on state `s` for the captured text `fullText`. */
  function Animate(s: RunState, fullText: seq<CodeUnit>, timestamp: int): (r: RunState)
    ensures r.currentIndex >= s.currentIndex
    ensures Inv(s, fullText) && s.framePending ==> Inv(r, fullText)
  {
    var start := StartOf(s, timestamp);
    var s1 := s.(startTime := Some(start));
    var elapsed := timestamp - start;
    if elapsed < InitialDelay then
      s1.(framePending := true)
    else
      var target := TargetIndex(elapsed - InitialDelay, |fullText|);
      var s2 := if target > s1.currentIndex then s1.(currentIndex := target, text := fullText[..target]) else s1;
      if s2.currentIndex < |fullText| then
        s2.(framePending := true)
      else
        s2.(text := fullText, typing := false, complete := true, borderHidden := true, framePending := false)
  }

  /** The start time used by a frame at `timestamp`. */
  function StartOf(s: RunState, timestamp: int): int
  {
    if StartUnset(s.startTime) then timestamp else s.startTime.value
  }

  /**
   * The start time is taken from a frame exactly when it is unset (null, or
   * the falsy 0), and is otherwise kept.
   */
  lemma StartCapturedOnlyWhenUnset(s: RunState, fullText: seq<CodeUnit>, timestamp: int)
    ensures Animate(s, fullText, timestamp).startTime == Some(StartOf(s, timestamp))
    ensures !StartUnset(s.startTime) ==> Animate(s, fullText, timestamp).startTime == s.startTime
    ensures StartUnset(s.startTime) ==> Animate(s, fullText, timestamp).startTime == Some(timestamp)
  {
  }

  /**
   * During the initial delay a frame changes neither the text, the classes
   * nor `currentIndex`: it records the start time and requests the next frame.
   */
  lemma WaitingOnlyReschedules(s: RunState, fullText: seq<CodeUnit>, timestamp: int)
    requires timestamp - StartOf(s, timestamp) < InitialDelay
    ensures Animate(s, fullText, timestamp) == s.(startTime := Some(StartOf(s, timestamp)), framePending := true)
  {
  }

  /**
   * Past the initial delay a frame shows the larger of what was shown and
   * what is due by the clock, and keeps requesting frames until the whole
   * text is shown.
   */
  lemma TypingFollowsClock(s: RunState, fullText: seq<CodeUnit>, timestamp: int)
    requires Inv(s, fullText)
    requires timestamp - StartOf(s, timestamp) >= InitialDelay
    ensures var r := Animate(s, fullText, timestamp);
      var due := Revealed(timestamp - StartOf(s, timestamp), |fullText|);
      r.currentIndex == (if due > s.currentIndex then due else s.currentIndex) &&
      r.text == fullText[..r.currentIndex] &&
      (r.framePending <==> r.currentIndex < |fullText|)
  {
  }

  /**
   * Reaching the end of the text completes the run: the text is the full
   * text, `typing` is removed, `complete` is added, the cursor is hidden and
   * no further frame is requested.
   */
  lemma ReachingEndCompletes(s: RunState, fullText: seq<CodeUnit>, timestamp: int)
    requires Inv(s, fullText) && !s.complete
    requires Animate(s, fullText, timestamp).currentIndex == |fullText|
    requires timestamp - StartOf(s, timestamp) >= InitialDelay
    ensures var r := Animate(s, fullText, timestamp);
      r.text == fullText && !r.typing && r.complete && r.borderHidden && !r.framePending
  {
  }

  /** A run of frames at `timestamps`; a frame is only delivered while one is requested. */
  function Frames(s: RunState, fullText: seq<CodeUnit>, timestamps: seq<int>): RunState
    decreases |timestamps|
  {
    if timestamps == [] || !s.framePending then s
    else Frames(Animate(s, fullText, timestamps[0]), fullText, timestamps[1..])
  }

  /**
   * Over any schedule of frames, whatever the timestamps, `currentIndex` never
   * decreases, the shown text stays the prefix of that length, and a
   * completed run stays exactly as it is.
   */
  lemma {:induction false} FramesMonotone(s: RunState, fullText: seq<CodeUnit>, timestamps: seq<int>)
    requires Inv(s, fullText)
    ensures var r := Frames(s, fullText, timestamps);
      Inv(r, fullText) && r.currentIndex >= s.currentIndex && (s.complete ==> r == s)
    decreases |timestamps|
  {
    if timestamps != [] && s.framePending {
      FramesMonotone(Animate(s, fullText, timestamps[0]), fullText, timestamps[1..]);
    }
  }

  predicate Nondecreasing(ts: seq<int>) {
    forall i, j :: 0 <= i < j < |ts| ==> ts[i] <= ts[j]
  }

  /**
   * `s` is where a run that started at `start` (a truthy time) stands after a
   * frame at `last`: it shows what is due at `last - start`, it is complete
   * exactly when everything was due, and it requests a frame exactly while
   * it is not complete.
   */
  predicate Tracks(s: RunState, fullText: seq<CodeUnit>, start: int, last: int) {
    var n := |fullText|;
    s.startTime == Some(start) && start != 0 &&
    s.currentIndex == Revealed(last - start, n) &&
    s.framePending == !s.complete &&
    (s.complete <==> last - start >= InitialDelay && Revealed(last - start, n) == n)
  }

  /**
   * With timestamps that never go back, a run that tracks the clock keeps
   * tracking it: after the frames, exactly what is due at the last
   * timestamp is shown, however many frames were skipped.
   */
  lemma {:induction false} FramesTrackClock(s: RunState, fullText: seq<CodeUnit>, start: int, last: int, timestamps: seq<int>)
    requires Inv(s, fullText) && Tracks(s, fullText, start, last)
    requires Nondecreasing(timestamps) && (timestamps != [] ==> last <= timestamps[0])
    ensures Tracks(Frames(s, fullText, timestamps), fullText, start,
                   if timestamps == [] then last else timestamps[|timestamps| - 1])
    decreases |timestamps|
  {
    var n := |fullText|;
    if timestamps == [] {
    } else if !s.framePending {
      var end := timestamps[|timestamps| - 1];
      RevealedMonotone(last - start, end - start, n);
      assert last <= end by { assert timestamps[0] <= end; }
    } else {
      var t := timestamps[0];
      var r := Animate(s, fullText, t);
      RevealedMonotone(last - start, t - start, n);
      assert Tracks(r, fullText, start, t);
      assert Nondecreasing(timestamps[1..]) by {
        forall i, j | 0 <= i < j < |timestamps[1..]| ensures timestamps[1..][i] <= timestamps[1..][j] {
          assert timestamps[1..][i] == timestamps[i + 1] && timestamps[1..][j] == timestamps[j + 1];
        }
      }
      FramesTrackClock(r, fullText, start, t, timestamps[1..]);
      if |timestamps| > 1 {
        assert timestamps[1..][|timestamps[1..]| - 1] == timestamps[|timestamps| - 1];
      }
    }
  }

  /**
   * A whole run from `startAnimation()`: with frames at nondecreasing
   * timestamps the first of which is not 0, the heading shows exactly the
   * prefix due at the last frame, `min(floor((t - t0 - 1000) / 180), |text|)`
   * characters once the delay is over, and the run is complete exactly when
   * `t - t0 >= 1000 + 180 * |text|`.
   */
  lemma RunFromStart(fullText: seq<CodeUnit>, timestamps: seq<int>)
    requires |timestamps| >= 1 && timestamps[0] != 0 && Nondecreasing(timestamps)
    ensures var r := Frames(Start(Initial()), fullText, timestamps);
      var elapsed := timestamps[|timestamps| - 1] - timestamps[0];
      r.currentIndex == Revealed(elapsed, |fullText|) &&
      r.text == fullText[..Revealed(elapsed, |fullText|)] &&
      (r.complete <==> elapsed >= InitialDelay + |fullText| * CharDelay) &&
      (r.complete ==> r.text == fullText && !r.typing && !r.framePending)
  {
    var t0 := timestamps[0];
    var s0 := Start(Initial());
    var s1 := Animate(s0, fullText, t0);
    assert Frames(s0, fullText, timestamps) == Frames(s1, fullText, timestamps[1..]);
    assert Tracks(s1, fullText, t0, t0);
    assert Nondecreasing(timestamps[1..]) by {
      forall i, j | 0 <= i < j < |timestamps[1..]| ensures timestamps[1..][i] <= timestamps[1..][j] {
        assert timestamps[1..][i] == timestamps[i + 1] && timestamps[1..][j] == timestamps[j + 1];
      }
    }
    FramesTrackClock(s1, fullText, t0, t0, timestamps[1..]);
    FramesMonotone(s1, fullText, timestamps[1..]);
    if |timestamps| > 1 {
      assert timestamps[1..][|timestamps[1..]| - 1] == timestamps[|timestamps| - 1];
    }
    RevealedAllIff(timestamps[|timestamps| - 1] - t0, |fullText|);
  }

  /** "HELLO" 1360 ms after the first frame shows "HE"; 1900 ms after it, all of it, complete. */
  lemma HelloExample()
    ensures Frames(Start(Initial()), Utf16("HELLO"), [16, 16 + 1360]).text == Utf16("HE")
    ensures var r := Frames(Start(Initial()), Utf16("HELLO"), [16, 16 + 1900]);
      r.text == Utf16("HELLO") && r.complete && !r.framePending
  {
    assert Utf16("HELLO") == [72, 69, 76, 76, 79];
    assert Utf16("HE") == [72, 69];
    RunFromStart(Utf16("HELLO"), [16, 16 + 1360]);
    RunFromStart(Utf16("HELLO"), [16, 16 + 1900]);
  }

  /**
   * Lengths and prefixes count UTF-16 code units, as `length` and
   * `substring` do: "Hi \u{1F600}" has length 5, shows the emoji's high
   * surrogate alone 1720 ms after the first frame, and completes only at
   * 1900 ms.
   */
  lemma AstralCharExample()
    ensures Utf16("Hi \U{1F600}") == [72, 105, 32, 0xD83D, 0xDE00]
    ensures var r := Frames(Start(Initial()), Utf16("Hi \U{1F600}"), [16, 16 + 1720]);
      r.text == [72, 105, 32, 0xD83D] && !r.complete && r.framePending
    ensures Frames(Start(Initial()), Utf16("Hi \U{1F600}"), [16, 16 + 1900]).complete
  {
    assert CharUnits('\U{1F600}') == [0xD83D, 0xDE00];
    assert Utf16("Hi \U{1F600}") == [72, 105, 32, 0xD83D, 0xDE00];
    RunFromStart(Utf16("Hi \U{1F600}"), [16, 16 + 1720]);
    RunFromStart(Utf16("Hi \U{1F600}"), [16, 16 + 1900]);
  }

  /**
   * A first frame at timestamp 0 does not fix the start: `!startTime` is
   * true again at the next frame, which becomes the start.
   */
  lemma ZeroTimestampIsUnset(fullText: seq<CodeUnit>, t: int)
    ensures Frames(Start(Initial()), fullText, [0, t]).startTime == Some(t)
    ensures Frames(Start(Initial()), fullText, [0, t]).currentIndex == 0
  {
    var s1 := Animate(Start(Initial()), fullText, 0);
    assert s1.startTime == Some(0) && s1.framePending;
    assert Frames(Start(Initial()), fullText, [0, t]) == Frames(Animate(s1, fullText, t), fullText, []);
  }

  /** The heading element together with the closure state of its animation. */
  class Typewriter {
    const fullText: seq<CodeUnit>
    var startTime: Option<int>
    var currentIndex: nat
    var text: seq<CodeUnit>
    var typing: bool
    var complete: bool
    var borderHidden: bool
    var framePending: bool

    function Snapshot(): RunState
      reads this
    {
      RunState(startTime, currentIndex, text, typing, complete, borderHidden, framePending)
    }

    predicate Valid()
      reads this
    {
      Inv(Snapshot(), fullText)
    }

    /**
     * `initializeTypewriterEffect` on a heading whose text is `content`.
     * Trimming the characters and then taking code units gives what
     * `trim()` gives on the code units: every whitespace character is a
     * single unit and no surrogate is whitespace.
     */
    constructor (content: string)
      ensures fullText == Utf16(Trim(content))
      ensures Snapshot() == Initial() && Valid()
    {
      fullText := Utf16(Trim(content));
      text := [];
      typing := true;
      startTime, currentIndex := None, 0;
      complete, borderHidden, framePending := false, false, false;
    }

    /** `startAnimation()`, run once when the fonts are ready. */
    method StartAnimation()
      requires Snapshot() == Initial()
      modifies this
      ensures Snapshot() == Start(old(Snapshot())) && Valid()
    {
      startTime := None;
      currentIndex := 0;
      framePending := true;
    }

    /** `animate(timestamp)`: the frame callback, delivered only when requested. */
    method Step(timestamp: int)
      requires Valid() && framePending
      modifies this
      ensures Snapshot() == Animate(old(Snapshot()), fullText, timestamp)
      ensures Valid() && currentIndex >= old(currentIndex)
    {
      framePending := false;
      if StartUnset(startTime) {
        startTime := Some(timestamp);
      }
      var elapsed := timestamp - startTime.value;
      if elapsed < InitialDelay {
        framePending := true;
        return;
      }
      var typingTime := elapsed - InitialDelay;
      var targetIndex := if typingTime / CharDelay < |fullText| then typingTime / CharDelay else |fullText|;
      if targetIndex > currentIndex {
        currentIndex := targetIndex;
        text := fullText[..currentIndex];
      }
      if currentIndex < |fullText| {
        framePending := true;
      } else {
        text := fullText;
        typing := false;
        complete := true;
        borderHidden := true;
      }
    }
  }
}
