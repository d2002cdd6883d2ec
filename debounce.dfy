/**
 * `debounce(func, wait)` (script.js:568-578) in logical time. The wrapper
 * keeps one timer handle: every call clears it and arms a new timer that
 * will run `func` with that call's arguments `wait` ms later. There is no
 * clock here: times are whole milliseconds, a call carries its time, and
 * `AfterTick(s, now)` is the host running whatever timer is due by `now`.
 * `executed` records the argument lists `func` was run with, oldest first.
 */
module Debounce {
  import opened Wrappers

  /**
   * The delay `setTimeout(later, wait)` waits. Its timeout is a WebIDL
   * `long`: the number is taken modulo 2^32 as a signed 32-bit value, and a
   * negative result is run as 0.
   */
  function TimerDelay(wait: int): (d: nat)
    ensures d < 0x8000_0000
    ensures 0 <= wait < 0x8000_0000 ==> d == wait
    ensures wait < 0 && -0x8000_0000 <= wait ==> d == 0
    ensures d == 0 || (wait - d) % 0x1_0000_0000 == 0
    ensures d == 0 <==> wait % 0x1_0000_0000 == 0 || wait % 0x1_0000_0000 >= 0x8000_0000
  {
    var w := wait % 0x1_0000_0000;
    if w >= 0x8000_0000 then 0 else w
  }

  /** A delay of 2^31 ms or more wraps to a negative `long` and runs at once; 2^32 + 250 waits 250 ms. */
  lemma TimerDelayWraps()
    ensures TimerDelay(0x8000_0000) == 0
    ensures TimerDelay(0x1_0000_0000 + 250) == 250
    ensures TimerDelay(-250) == 0
  {
  }

  /** The armed timer: the arguments it will pass on and the time it is due. */
  datatype PendingCall<A> = PendingCall(args: A, due: int)

  datatype DebounceState<A> = DebounceState(pending: Option<PendingCall<A>>, executed: seq<A>)

  /**
   * One call of the debounced function at time `now`: whatever was pending
   * is dropped and never runs, and at any later instant the clock reaches,
   * exactly this call has run once it is due and nothing has run before.
   */
  function AfterCall<A>(s: DebounceState<A>, wait: int, args: A, now: int): (r: DebounceState<A>)
    ensures forall t :: AfterTick(r, t).executed == s.executed + (if t >= now + TimerDelay(wait) then [args] else [])
    ensures forall t :: t >= now + TimerDelay(wait) ==> AfterTick(r, t).pending == None
  {
    DebounceState(Some(PendingCall(args, now + TimerDelay(wait))), s.executed)
  }

  /**
   * The host's clock reaching `now` (`later` firing): a pending call that is
   * due runs once and is cleared; otherwise nothing changes. Earlier runs
   * are never rewritten, and at most one run is added.
   */
  function AfterTick<A>(s: DebounceState<A>, now: int): (r: DebounceState<A>)
    ensures s.executed <= r.executed
    ensures |r.executed| <= |s.executed| + 1
    ensures |r.executed| == |s.executed| + 1 <==> s.pending.Some? && now >= s.pending.value.due
    ensures |r.executed| == |s.executed| + 1 ==> r.pending == None && r.executed[|s.executed|] == s.pending.value.args
    ensures |r.executed| == |s.executed| ==> r == s
  {
    match s.pending
    case Some(p) =>
      if now >= p.due then DebounceState(None, s.executed + [p.args]) else s
    case None => s
  }

  /** A call of the debounced function, with its arguments and its time. */
  datatype CallAt<A> = CallAt(args: A, at: int)

  /**
   * The host running a series of calls: before each call every timer due
   * strictly before its millisecond has fired, and after the last call the
   * clock reaches `end`. A timer due at the very millisecond of a call does
   * not interrupt it: the call clears it first, as synchronous code is never
   * interrupted by a timer.
   */
  function Replay<A>(s: DebounceState<A>, wait: int, calls: seq<CallAt<A>>, end: int): DebounceState<A>
    decreases |calls|
  {
    if calls == [] then AfterTick(s, end)
    else Replay(AfterCall(AfterTick(s, calls[0].at - 1), wait, calls[0].args, calls[0].at), wait, calls[1..], end)
  }

  /** The last instant the clock reaches before the next call, or `end` after the last call. */
  function NextTime<A>(calls: seq<CallAt<A>>, end: int): int
  {
    if calls == [] then end else calls[0].at - 1
  }

  /** What a pending call contributes when the clock reaches `t`. */
  function FiresBy<A>(pending: Option<PendingCall<A>>, t: int): seq<A>
  {
    match pending
    case Some(p) => if t >= p.due then [p.args] else []
    case None => []
  }

  /**
   * The debounce rule stated call by call: a call's arguments reach `func`
   * exactly when no further call comes by its due time. The next call must
   * come strictly after the due time (a call at that very millisecond still
   * clears the timer); for the last call, the clock must reach `end` at or
   * after the due time.
   */
  function Survivors<A>(wait: int, calls: seq<CallAt<A>>, end: int): seq<A>
    decreases |calls|
  {
    if calls == [] then []
    else
      var due := calls[0].at + TimerDelay(wait);
      var runs := if |calls| == 1 then end >= due else calls[1].at > due;
      (if runs then [calls[0].args] else []) +
      Survivors(wait, calls[1..], end)
  }

  /**
   * Running the calls executes exactly the survivors, in order, after
   * whatever was pending at the start if it fell due before the first call;
   * and at the end the last call is still pending exactly when `end` is
   * before its due time.
   */
  lemma {:induction false} ReplayRunsSurvivors<A>(s: DebounceState<A>, wait: int, calls: seq<CallAt<A>>, end: int)
    ensures var r := Replay(s, wait, calls, end);
      r.executed == s.executed + FiresBy(s.pending, NextTime(calls, end)) + Survivors(wait, calls, end)
    ensures calls != [] ==>
      var last := calls[|calls| - 1];
      var due := last.at + TimerDelay(wait);
      Replay(s, wait, calls, end).pending == if end >= due then None else Some(PendingCall(last.args, due))
    decreases |calls|
  {
    if calls != [] {
      var c := calls[0];
      var s1 := AfterCall(AfterTick(s, c.at - 1), wait, c.args, c.at);
      assert s1.executed == s.executed + FiresBy(s.pending, c.at - 1);
      ReplayRunsSurvivors(s1, wait, calls[1..], end);
      if |calls| > 1 {
        assert calls[1..][|calls[1..]| - 1] == calls[|calls| - 1];
      }
    }
  }

  /** Calls each made by the due time of the one before: a burst. */
  predicate IsBurst<A>(wait: int, calls: seq<CallAt<A>>) {
    forall i :: 0 < i < |calls| ==> calls[i].at <= calls[i - 1].at + TimerDelay(wait)
  }

  /** In a burst only the last call can survive, and it does once the clock passes its delay. */
  lemma {:induction false} BurstSurvivors<A>(wait: int, calls: seq<CallAt<A>>, end: int)
    requires calls != [] && IsBurst(wait, calls)
    ensures var last := calls[|calls| - 1];
      Survivors(wait, calls, end) == if end >= last.at + TimerDelay(wait) then [last.args] else []
    decreases |calls|
  {
    if |calls| > 1 {
      assert calls[1].at <= calls[0].at + TimerDelay(wait);
      assert IsBurst(wait, calls[1..]) by {
        forall i | 0 < i < |calls[1..]| ensures calls[1..][i].at <= calls[1..][i - 1].at + TimerDelay(wait) {
          assert calls[1..][i] == calls[i + 1] && calls[1..][i - 1] == calls[i];
        }
      }
      BurstSurvivors(wait, calls[1..], end);
      assert calls[1..][|calls[1..]| - 1] == calls[|calls| - 1];
    }
  }

  /**
   * A burst started with nothing pending runs `func` exactly once, with the
   * last call's arguments, once the clock reaches the last call's time plus
   * the delay; before then it has run nothing and the last call is pending.
   */
  lemma BurstRunsOnce<A>(s: DebounceState<A>, wait: int, calls: seq<CallAt<A>>, end: int)
    requires s.pending == None
    requires calls != [] && IsBurst(wait, calls)
    ensures var last := calls[|calls| - 1];
      var r := Replay(s, wait, calls, end);
      if end >= last.at + TimerDelay(wait)
      then r.executed == s.executed + [last.args] && r.pending == None
      else r.executed == s.executed && r.pending == Some(PendingCall(last.args, last.at + TimerDelay(wait)))
  {
    ReplayRunsSurvivors(s, wait, calls, end);
    BurstSurvivors(wait, calls, end);
  }

  /** Two calls 100 ms apart with a 250 ms wait (the resize handler's): only the second runs, at 350 ms. */
  lemma ResizeExample()
    ensures Replay(DebounceState(None, []), 250, [CallAt("first", 0), CallAt("second", 100)], 349).executed == []
    ensures Replay(DebounceState(None, []), 250, [CallAt("first", 0), CallAt("second", 100)], 350).executed == ["second"]
  {
    BurstRunsOnce(DebounceState(None, []), 250, [CallAt("first", 0), CallAt("second", 100)], 349);
    BurstRunsOnce(DebounceState(None, []), 250, [CallAt("first", 0), CallAt("second", 100)], 350);
  }

  /**
   * With a zero wait, two calls in the same millisecond (`d("a"); d("b")`)
   * run `func` once, with "b": the second call clears the first timer before
   * it can fire.
   */
  lemma SameInstantZeroWait()
    ensures Replay(DebounceState(None, []), 0, [CallAt("a", 5), CallAt("b", 5)], 5).executed == ["b"]
  {
    BurstRunsOnce(DebounceState(None, []), 0, [CallAt("a", 5), CallAt("b", 5)], 5);
  }

  /** The function `debounce` returns, with the timer handle it closes over. */
  class Debouncer<A> {
    const wait: int
    var pending: Option<PendingCall<A>>
    var executed: seq<A>

    function State(): DebounceState<A>
      reads this
    {
      DebounceState(pending, executed)
    }

    /** `debounce(func, wait)`: no timer armed, nothing run yet. */
    constructor (wait: int)
      ensures this.wait == wait && pending == None && executed == []
    {
      this.wait := wait;
      pending := None;
      executed := [];
    }

    /** `executedFunction(...args)` at time `now`: `clearTimeout`, then `setTimeout(later, wait)`. */
    method Call(args: A, now: int)
      modifies this
      ensures State() == AfterCall(old(State()), wait, args, now)
    {
      pending := None; // clearTimeout(timeout)
      pending := Some(PendingCall(args, now + TimerDelay(wait)));
    }

    /** The host's clock reaching `now`: `later` runs if its timer is due. */
    method Tick(now: int)
      modifies this
      ensures State() == AfterTick(old(State()), now)
    {
      if pending.Some? && now >= pending.value.due {
        var args := pending.value.args;
        pending := None;
        executed := executed + [args];
      }
    }
  }
}
