# Portfolio page script: verified model of its stateful core

The portfolio page's `script.js` is mostly DOM wiring. Four pieces of it have
behaviour that can be stated exactly, and this project models those four in
Dafny and proves what they promise:

- **`isValidEmail`**: the contact form's e-mail check, the regular expression
  `^[^\s@]+@[^\s@]+\.[^\s@]+$`. Here it is written by hand (`Email.IsValidEmail`:
  find the first `@`, then check the local part and the domain). It is proved
  equal to the pattern read literally (`Email.MatchesPattern`: some split
  `L @ D1 . D2`). The JavaScript `\s` class is written out character by
  character in `JsText.IsWhitespace`. `String.prototype.trim` strips the same
  set, and `JsText.Trim` models it for the typewriter's captured text.
- **The typewriter effect** (`initializeTypewriterEffect`, with the closures
  `animate` and `startAnimation`). `TypewriterEffect.RunState` holds everything
  one animation frame reads or writes: `startTime`, `currentIndex`, whether a
  frame request is outstanding, and the heading's text, its `typing` and
  `complete` classes and its cursor border. `Animate` is one frame and
  `Frames` a run of frames. The class `TypewriterEffect.Typewriter` holds the
  same state in fields. Its `Step` method is the frame callback, proved to
  move that state exactly as `Animate` does. The run goes Idle (`Initial`),
  then waits out the initial delay, then types, then completes. Like
  `length` and `substring`, the model counts the text in UTF-16 code units
  (`JsText.Utf16`), so a character outside the Basic Multilingual Plane takes
  two steps and its high surrogate is briefly shown alone.
- **The contact form's submit handler**. `ContactForm.Decide` is the
  handler's decision: which notification it shows and whether it resets the
  form. `ContactForm.Form.Submit` applies it to a form object that holds the
  three fields and the notification currently shown. A new notification
  replaces the old one.
- **`debounce`**, in logical time. `Debounce.Debouncer` holds the pending
  timer (arguments and due time) and the record of executed argument lists.
  Its `Call` replaces the pending call, and its `Tick` runs the pending call
  once it is due. `Debounce.Replay` runs a whole series of calls. It is
  proved to run exactly the calls that no later call follows by their due
  time (`Debounce.Survivors`). So a burst runs `func` once, with the last
  call's arguments. The delay is converted as `setTimeout` converts it, to a
  32-bit `long` with negative values run as 0.

Timestamps and delays are integer milliseconds. Nothing calls the browser:
frames, timer firings and submissions are method calls whose times come in
as arguments.

## Model

| member | source | states |
|---|---|---|
| `Email.IsValidEmail` | script.js:497-500 | an accepted address has a non-empty local part before its first `@`, at least three characters after it, and no whitespace anywhere (the full characterisation is `Email.ValidEmailIff`) |
| `Email.FirstAt` | script.js:498 | the index of the first `@` (or the length): no `@` before it, an `@` at it when it is in range |
| `Email.ValidEmailIff` | script.js:497-500 | the check accepts a string if and only if the regular expression matches it, i.e. some split `L @ D1 . D2` with three non-empty runs of `[^\s@]` exists |
| `Email.ValidSplits` | script.js:498 | a string that passes has a split `L @ D1 . D2` fitting the pattern, with its `@` at the first `@` |
| `Email.SplitIsValid` | script.js:498 | a string with any split fitting the pattern passes the check |
| `Email.ComposedIsValid` | script.js:498 | every `L + "@" + D1 + "." + D2` with non-empty `[^\s@]` runs passes, dots inside `D1` and `D2` included |
| `Email.ValidIsComposed` | script.js:498 | every string that passes splits into such `L`, `D1`, `D2` |
| `Email.ValidHasOneAtNoWhitespace` | script.js:498 | a string that passes contains exactly one `@` and no whitespace character |
| `Email.ValidHasFiveChars` | script.js:498 | a string that passes has at least five characters |
| `Email.AcceptsExample` | script.js:497-500 | "a@b.co" passes |
| `Email.RejectsExamples` | script.js:497-500 | "a@b", "ab.com", "@b.co" and "a@.co" fail |
| `Email.RejectsExtraAtOrWhitespace` | script.js:498 | any string without exactly one `@`, or with a whitespace character anywhere, fails the check |
| `Email.RejectsSecondAtAndSpaces` | script.js:498 | the three strings "a@b@c.d", "a b@c.d" and "a@b.c " fail the check |
| `JsText.LeadingWhitespace` | script.js:325 | the length of the whitespace run at the front, which `trim()` removes |
| `JsText.TrailingWhitespace` | script.js:325 | the length of the whitespace run at the end, which `trim()` removes |
| `JsText.Trim` | script.js:325 | the trimmed text is no longer than the content, starts and ends on a non-whitespace character, and is empty exactly when the content is all whitespace |
| `JsText.CharUnits` | script.js:359-367 | one character's UTF-16 code units: the character itself below U+10000, otherwise a high and a low surrogate that decode back to it |
| `JsText.Utf16` | script.js:359-367 | a string's code units, at least one and at most two per character, exactly one each when no character is outside the Basic Multilingual Plane and then equal to the characters themselves |
| `JsText.Utf16Append` | script.js:359-367 | encoding distributes over concatenation, so with `CharUnits` a string's code units are its characters' units in order |
| `JsText.TrimIsMaximalInnerSlice` | script.js:325 | the captured text is a contiguous slice of the heading's content, starts and ends on a non-whitespace character, and only whitespace was cut on either side |
| `TypewriterEffect.TargetIndex` | script.js:356-362 | the due index is at most the text length, and below it is the number of whole 180 ms periods since the initial delay ended (floor of the division) |
| `TypewriterEffect.Revealed` | script.js:347-362 | the code units due after `elapsed` ms: none during the initial delay, then one per whole 180 ms period, all of them once `elapsed >= 1000 + 180 * length` |
| `TypewriterEffect.RevealedMonotone` | script.js:356-362 | the due index never decreases as the elapsed time grows and never exceeds the text length |
| `TypewriterEffect.RevealedAllIff` | script.js:356-362 | the whole text is due exactly when `elapsed >= 1000 + 180 * length` |
| `TypewriterEffect.Initial` | script.js:325-338 | after initialisation the heading is empty and marked `typing`, no frame is requested, and the run invariant holds |
| `TypewriterEffect.Start` | script.js:383-388 | `startAnimation` clears the start time and index and requests a frame, keeping the invariant |
| `TypewriterEffect.Animate` | script.js:340-380 | a frame never decreases `currentIndex`, and a requested frame keeps the invariant (text is the prefix of length `currentIndex`, `complete` only with everything shown) |
| `TypewriterEffect.StartCapturedOnlyWhenUnset` | script.js:342-345 | the start time is taken from a frame exactly when it is unset, `null` or the falsy 0, and is kept otherwise |
| `TypewriterEffect.WaitingOnlyReschedules` | script.js:347-353 | during the initial delay a frame only records the start time and requests the next frame; text, classes and index are unchanged |
| `TypewriterEffect.TypingFollowsClock` | script.js:355-372 | past the delay a frame shows the larger of the current index and the due index, as the prefix of that length, and requests another frame exactly while the text is incomplete |
| `TypewriterEffect.ReachingEndCompletes` | script.js:371-379 | reaching the end sets the text to exactly the full text, removes `typing`, adds `complete`, hides the cursor and requests no further frame |
| `TypewriterEffect.FramesMonotone` | script.js:365-372 | over any schedule of frames `currentIndex` never decreases, the shown text stays the prefix of that length, and a completed run never changes again |
| `TypewriterEffect.FramesTrackClock` | script.js:347-379 | with nondecreasing timestamps, a run that shows what was due at the previous frame shows what is due at the last frame, however many frames were skipped |
| `TypewriterEffect.RunFromStart` | script.js:340-388 | from `startAnimation`, after frames at nondecreasing timestamps whose first is non-zero, the shown prefix has length `min(floor((t - t0 - 1000) / 180), length)` (0 during the delay), and the run is complete exactly when `t - t0 >= 1000 + 180 * length` |
| `TypewriterEffect.HelloExample` | script.js:332-333 | "HELLO" shows "HE" 1360 ms after the first frame, and all of it, complete with no frame requested, 1900 ms after |
| `TypewriterEffect.AstralCharExample` | script.js:359-368 | "Hi" followed by a space and an emoji has length 5; 1720 ms after the first frame it shows the emoji's high surrogate alone and asks for another frame, and it completes only at 1900 ms |
| `TypewriterEffect.ZeroTimestampIsUnset` | script.js:342-343 | a first frame at timestamp 0 does not fix the start; the next frame's timestamp becomes the start |
| `TypewriterEffect.Typewriter.constructor` | script.js:320-338 | the captured text is the trimmed content as UTF-16 code units; the heading is empty and marked `typing` |
| `TypewriterEffect.Typewriter.StartAnimation` | script.js:383-388 | the fields move as `Start` says |
| `TypewriterEffect.Typewriter.Step` | script.js:340-380 | the fields move exactly as `Animate` says; the invariant holds and `currentIndex` does not decrease |
| `ContactForm.Decide` | script.js:468-480 | an empty field gives the "fill in all fields" error; otherwise an invalid e-mail gives the "valid email" error; otherwise the thank-you success; the form is reset exactly on success, i.e. iff name and message are non-empty and the e-mail passes the check |
| `ContactForm.DecideExamples` | script.js:468-480 | an empty message is refused without reset, a malformed address is refused, a complete valid form is thanked and reset |
| `ContactForm.Form.constructor` | script.js:453-455 | the form starts with empty fields and no notification |
| `ContactForm.Form.Submit` | script.js:457-480 | the notification shown is the decision's, replacing any earlier one; the fields are emptied on success and left unchanged otherwise |
| `Debounce.TimerDelay` | script.js:576 | the delay `setTimeout` waits: below 2^31, when not 0 congruent to `wait` modulo 2^32 (so `wait` itself in `0 .. 2^31 - 1`), and 0 exactly when the converted 32-bit `long` is 0 or negative, i.e. when `wait` modulo 2^32 is 0 or at least 2^31 |
| `Debounce.TimerDelayWraps` | script.js:576 | 2^31 ms runs at once, 2^32 + 250 ms waits 250 ms, a negative wait runs at once |
| `Debounce.AfterCall` | script.js:575-576 | after a call the dropped pending call never runs: whenever the clock next fires, exactly this call has run if it is due and nothing has run otherwise |
| `Debounce.AfterTick` | script.js:571-574 | a firing runs at most one call, never rewrites earlier runs, runs the pending call exactly when it is due and then clears it, and otherwise changes nothing |
| `Debounce.ReplayRunsSurvivors` | script.js:568-578 | running a series of calls executes exactly the calls that no later call follows by their due time (a call at the due millisecond still cancels), in order, and leaves the last call pending exactly when its due time has not been reached |
| `Debounce.BurstSurvivors` | script.js:569-577 | in a burst (each call made by the due time of the one before) only the last call can run, and it runs once the clock passes its due time |
| `Debounce.BurstRunsOnce` | script.js:569-577 | a burst started with nothing pending runs `func` exactly once, with the last call's arguments, once the clock reaches the last call's time plus the delay; before that nothing runs and the last call is pending |
| `Debounce.ResizeExample` | script.js:583-586 | with the resize handler's 250 ms, calls at 0 and 100 run nothing by 349 ms and only the second call by 350 ms |
| `Debounce.SameInstantZeroWait` | script.js:575-576 | with a zero wait, two calls in the same millisecond run `func` once, with the second call's arguments |
| `Debounce.Debouncer.constructor` | script.js:568-569 | a fresh wrapper has no timer armed and has run nothing |
| `Debounce.Debouncer.Call` | script.js:570-577 | the state moves as `AfterCall` says |
| `Debounce.Debouncer.Tick` | script.js:571-574 | the state moves as `AfterTick` says: a due pending call runs once and is cleared |

## Left out

- Starfield, mobile navigation, the character dialog, scroll reveal, smooth scrolling with `easeInOutQuad`, and the resize and scroll listeners' bodies: decorative DOM work, random numbers, floating-point easing and empty placeholders.
- `showNotification`'s styling, entrance transition and five-second removal timers: only "the latest notification replaces any earlier one" is kept, as the `shown` field.
- The `try/catch` around form handling and its "Sorry, there was an error" notification: the exceptions come from the host's `FormData`, which is not modelled.
- `FormData.get` returns `null` for a field missing from the form; the page's form has all three fields, so they are modelled as strings, and `!value` as the empty string.
- `this.reset()` restores each field's default value; the page's defaults are empty, so the model empties the fields.
- The font-readiness wait and the 50 ms / 200 ms `setTimeout` before `startAnimation`: promise and timer plumbing. `Typewriter.StartAnimation` requires the idle state because the page calls `startAnimation` exactly once.
- The missing-heading and missing-form early returns: with no element, nothing is constructed.
- `lastCharTime`: assigned in `animate` and `startAnimation` but never read.
- Timestamps are integer milliseconds. The browser's `DOMHighResTimeStamp` is a float. The `Math.floor` of a non-negative quotient is Dafny's integer division.
- `TypewriterEffect.Typewriter.Step` requires a requested frame: the browser calls `animate` only for a requested frame. This is also why nothing runs after completion.
- The debounce host model runs, before a call, every timer due strictly before that call's millisecond; a timer due in the very millisecond of a call is cleared by it, as a timer never interrupts synchronous code. A timer and a call from separate tasks in the same millisecond may run in either order in a browser; the model always lets the call go first. A timer that falls due between two events fires at the first event after its due time, not at its exact due instant; the record of executions is the same.
- `setTimeout`'s 4 ms clamp for deeply nested timers is not modelled. Its conversion of the delay to a 32-bit `long` (wrap modulo 2^32, negative run as 0) is modelled; a fractional `wait` is not, since times are whole milliseconds.
- Timers are assumed to fire once due, at the next event or tick after their due time. A browser may delay a timer further (a throttled background tab), so that a later call cancels it; such host delays are not modelled.
- JavaScript strings are UTF-16. The typewriter works on code units, as the source does; `IsValidEmail` works on characters. Every character of `\s` is in the Basic Multilingual Plane, and `+` needs only one character, so a surrogate pair passes or fails the same way either way.
