/** The stopwatch screen's engine: `time`, the seconds counted so far, and `running`.
    While it runs, a one-second interval adds one to `time`; the Start/Stop button
    flips `running`. The scheduler is replaced by explicit calls to `Tick`. */
module StopwatchScreen {
  import opened TimeFormat

  /** The screen's two pieces of state. */
  datatype StopwatchState = StopwatchState(time: nat, running: bool)

  /** The state on mount: zero seconds, stopped. */
  const Initial := StopwatchState(0, false)

  /** One firing of the one-second interval, which exists only while `running`. */
  function Ticked(s: StopwatchState): StopwatchState {
    if s.running then s.(time := s.time + 1) else s
  }

  /** The Start/Stop button: `setRunning(!running)`. */
  function Toggled(s: StopwatchState): StopwatchState {
    s.(running := !s.running)
  }

  /** `n` interval firings in a row. */
  function TickedTimes(s: StopwatchState, n: nat): StopwatchState
    decreases n
  {
    if n == 0 then s else TickedTimes(Ticked(s), n - 1)
  }

  /** What can happen to the screen: a second passes, or the button is pressed. */
  datatype Event = Second | Press

  /** The state after a sequence of events. */
  function Run(s: StopwatchState, events: seq<Event>): StopwatchState
    decreases |events|
  {
    if events == [] then s
    else Run(if events[0] == Second then Ticked(s) else Toggled(s), events[1..])
  }

  /** The number of seconds among `events`. */
  function Seconds(events: seq<Event>): nat
    decreases |events|
  {
    if events == [] then 0 else (if events[0] == Second then 1 else 0) + Seconds(events[1..])
  }

  /** The number of button presses among `events`. */
  function Presses(events: seq<Event>): nat
    decreases |events|
  {
    if events == [] then 0 else (if events[0] == Press then 1 else 0) + Presses(events[1..])
  }

  /** A tick while running adds exactly one second; while stopped it changes nothing.
      It never changes `running`. */
  lemma TickAddsOneWhileRunning(s: StopwatchState)
    ensures Ticked(s).running == s.running
    ensures s.running ==> Ticked(s).time == s.time + 1
    ensures !s.running ==> Ticked(s) == s
  {
  }

  /** The button flips `running`, never resets `time`, and pressing it twice restores
      the state. */
  lemma ToggleKeepsTime(s: StopwatchState)
    ensures Toggled(s).time == s.time && Toggled(s).running != s.running
    ensures Toggled(Toggled(s)) == s
  {
  }

  /** `n` ticks while running count `n` seconds; while stopped they change nothing. */
  lemma {:induction false} TicksCount(s: StopwatchState, n: nat)
    ensures s.running ==> TickedTimes(s, n) == StopwatchState(s.time + n, true)
    ensures !s.running ==> TickedTimes(s, n) == s
    decreases n
  {
    if n > 0 {
      TicksCount(Ticked(s), n - 1);
    }
  }

  /** Starting the stopwatch from its initial state and letting five seconds pass shows
      five seconds; stopping it then freezes the count. */
  lemma {:induction false} StartTickFiveStop(k: nat)
    ensures TickedTimes(Toggled(Initial), 5) == StopwatchState(5, true)
    ensures TickedTimes(Toggled(TickedTimes(Toggled(Initial), 5)), k) == StopwatchState(5, false)
  {
    TicksCount(Toggled(Initial), 5);
    TicksCount(StopwatchState(5, false), k);
  }

  /** Over any sequence of events the count never goes down and grows by at most the
      number of seconds that passed; `running` has flipped once per press. */
  lemma {:induction false} RunBounds(s: StopwatchState, events: seq<Event>)
    ensures s.time <= Run(s, events).time <= s.time + Seconds(events)
    ensures Run(s, events).running == (s.running != (Presses(events) % 2 == 1))
    decreases |events|
  {
    if events != [] {
      var next := if events[0] == Second then Ticked(s) else Toggled(s);
      RunBounds(next, events[1..]);
    }
  }

  /** With the button never pressed, the count grows by exactly the seconds that pass
      while running, and not at all while stopped. */
  lemma {:induction false} RunWithoutPresses(s: StopwatchState, events: seq<Event>)
    requires Presses(events) == 0
    ensures Run(s, events) == if s.running then s.(time := s.time + Seconds(events)) else s
    decreases |events|
  {
    if events != [] {
      assert events[0] == Second;
      RunWithoutPresses(Ticked(s), events[1..]);
    }
  }

  /** The stopwatch screen's state, updated in place. */
  class Stopwatch {
    var time: nat
    var running: bool

    /** The state as a value. */
    function State(): StopwatchState
      reads this
    {
      StopwatchState(time, running)
    }

    /** The screen mounts with `useState(0)` and `useState(false)`. */
    constructor ()
      ensures State() == Initial
    {
      time := 0;
      running := false;
    }

    /** The interval's callback, `setTime(prevTime => prevTime + 1)`, which only runs
        while the interval set up for `running` exists. */
    method Tick()
      modifies this
      ensures State() == Ticked(old(State()))
    {
      if running {
        time := time + 1;
      }
    }

    /** The Start/Stop button. */
    method Toggle()
      modifies this
      ensures State() == Toggled(old(State()))
    {
      running := !running;
    }

    /** The text the screen shows. */
    function Display(): (r: string)
      reads this
      ensures IsClockString(r)
    {
      FormatTimeFields(time);
      FormatTime(time)
    }
  }

  /** Start, five seconds, stop, two more seconds: the display stays at five seconds. */
  method StartTickFiveStopDemo() returns (shown: nat, running: bool)
    ensures shown == 5 && !running
  {
    var w := new Stopwatch();
    w.Toggle();
    w.Tick();
    w.Tick();
    w.Tick();
    w.Tick();
    w.Tick();
    w.Toggle();
    w.Tick();
    w.Tick();
    shown, running := w.time, w.running;
  }
}
