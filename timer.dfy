/** The timer screen's countdown engine: `time`, the seconds left, `running` and
    `finished`. The Start Timer button loads `h*3600 + m*60 + s`; while running and
    above zero a one-second interval takes one off; the effect that watches
    `running` and `time` stops the countdown and raises `finished` once it is running
    at zero. The scheduler is replaced by explicit calls: `Tick` is one firing of the
    interval, `Evaluate` one run of the effect. */
module TimerScreen {
  import opened TimeFormat

  /** The screen's three pieces of countdown state. `time` is an integer: a negative
      total typed into the inputs is loaded as it is. */
  datatype CountdownState = CountdownState(time: int, running: bool, finished: bool)

  /** The state on mount: zero seconds, neither running nor finished. */
  const Initial := CountdownState(0, false, false)

  /** The total the Start Timer button computes from the three inputs. */
  function Total(hours: int, minutes: int, seconds: int): int {
    hours * 3600 + minutes * 60 + seconds
  }

  /** `startTimer`: load the total, run, clear `finished`, whatever the state was. */
  function Started(hours: int, minutes: int, seconds: int): CountdownState {
    CountdownState(Total(hours, minutes, seconds), true, false)
  }

  /** One firing of the interval, `setTime(prevTime => prevTime - 1)`; the interval only
      exists while `running && time > 0`. */
  function Ticked(c: CountdownState): CountdownState {
    if c.running && c.time > 0 then c.(time := c.time - 1) else c
  }

  /** One run of the effect. When `running && time > 0` it arms the interval, which
      changes no state until `Ticked`; when `time === 0 && running` it completes the
      countdown; otherwise it does nothing. */
  function Evaluated(c: CountdownState): CountdownState {
    if c.time == 0 && c.running then c.(running := false, finished := true) else c
  }

  /** One second of a running countdown: the interval fires, and the effect re-runs
      because `time` changed. */
  function Elapsed(c: CountdownState): CountdownState {
    Evaluated(Ticked(c))
  }

  /** `n` seconds in a row. */
  function ElapsedTimes(c: CountdownState, n: nat): CountdownState
    decreases n
  {
    if n == 0 then c else ElapsedTimes(Elapsed(c), n - 1)
  }

  /** The invariant of a countdown started with a non-negative total: the time left is
      never negative, and a finished countdown is stopped at zero. */
  predicate Valid(c: CountdownState) {
    c.time >= 0 && (c.finished ==> !c.running && c.time == 0)
  }

  /** What can happen to the screen: the Start Timer button with the parsed inputs, a
      firing of the interval, or a run of the effect. */
  datatype Event = StartPressed(hours: int, minutes: int, seconds: int) | IntervalFired | EffectRun

  /** The state after one event. */
  function Step(c: CountdownState, e: Event): CountdownState {
    match e
    case StartPressed(h, m, s) => Started(h, m, s)
    case IntervalFired => Ticked(c)
    case EffectRun => Evaluated(c)
  }

  /** The state after a sequence of events. */
  function Run(c: CountdownState, events: seq<Event>): CountdownState
    decreases |events|
  {
    if events == [] then c else Run(Step(c, events[0]), events[1..])
  }

  /** Every press of Start Timer in `events` loads a non-negative total. */
  predicate StartsNonNegative(events: seq<Event>) {
    forall i :: 0 <= i < |events| && events[i].StartPressed? ==>
      Total(events[i].hours, events[i].minutes, events[i].seconds) >= 0
  }

  /** Start loads the total and sets `running` and clears `finished`, from any state;
      with a non-negative total the result satisfies the invariant. */
  lemma StartLoadsTotal(hours: int, minutes: int, seconds: int)
    ensures Started(hours, minutes, seconds).time == hours * 3600 + minutes * 60 + seconds
    ensures Started(hours, minutes, seconds).running && !Started(hours, minutes, seconds).finished
    ensures Total(hours, minutes, seconds) >= 0 <==> Valid(Started(hours, minutes, seconds))
  {
  }

  /** A tick changes the state exactly when the countdown runs above zero, and then
      takes exactly one second off; it keeps the invariant, so the time left never
      goes below zero. */
  lemma TickTakesOneSecond(c: CountdownState)
    ensures Ticked(c) != c <==> c.running && c.time > 0
    ensures c.running && c.time > 0 ==> Ticked(c) == c.(time := c.time - 1)
    ensures Valid(c) ==> Valid(Ticked(c))
  {
  }

  /** The effect changes the state exactly when the countdown runs at zero, and then
      stops it and raises `finished`; it keeps the invariant. A completed countdown is
      left alone by further ticks and evaluations, so completion happens once. */
  lemma EvaluateCompletesOnce(c: CountdownState)
    ensures Evaluated(c) != c <==> c.running && c.time == 0
    ensures c.running && c.time == 0 ==> Evaluated(c) == CountdownState(0, false, true)
    ensures Valid(c) ==> Valid(Evaluated(c))
    ensures c.running && c.time == 0 ==> Ticked(Evaluated(c)) == Evaluated(c)
    ensures Evaluated(Evaluated(c)) == Evaluated(c)
  {
  }

  /** A countdown started with a negative total is stuck: it keeps running with the
      same time forever and never finishes. */
  lemma {:induction false} NegativeTotalIsStuck(hours: int, minutes: int, seconds: int, events: seq<Event>)
    requires Total(hours, minutes, seconds) < 0
    requires forall i :: 0 <= i < |events| ==> !events[i].StartPressed?
    ensures Run(Started(hours, minutes, seconds), events) == Started(hours, minutes, seconds)
    decreases |events|
  {
    if events != [] {
      NegativeTotalIsStuck(hours, minutes, seconds, events[1..]);
    }
  }

  /** Once finished, a countdown stays finished, stopped at zero, whatever number of
      seconds passes. */
  lemma {:induction false} FinishedStaysFinished(n: nat)
    ensures ElapsedTimes(CountdownState(0, false, true), n) == CountdownState(0, false, true)
    decreases n
  {
    if n > 0 {
      FinishedStaysFinished(n - 1);
    }
  }

  /** A running countdown with `t > 0` seconds left shows `t - k` and keeps running for
      the first `k < t` seconds, and from the `t`-th second on it is finished at zero. */
  lemma {:induction false} CountsDownThenFinishes(t: nat, k: nat)
    requires t > 0
    ensures k < t ==> ElapsedTimes(CountdownState(t, true, false), k) == CountdownState(t - k, true, false)
    ensures k >= t ==> ElapsedTimes(CountdownState(t, true, false), k) == CountdownState(0, false, true)
    decreases k
  {
    if k > 0 {
      var c := CountdownState(t, true, false);
      if t == 1 {
        assert Elapsed(c) == CountdownState(0, false, true);
        FinishedStaysFinished(k - 1);
      } else {
        assert Elapsed(c) == CountdownState(t - 1, true, false);
        CountsDownThenFinishes(t - 1, k - 1);
      }
    }
  }

  /** A whole run: Start with a non-negative total `n`, then the effect, then `k`
      seconds. The countdown is running, unfinished, with `n - k` seconds left while
      `k < n`, and finished at zero from then on; a zero total finishes at once. */
  lemma {:induction false} CountdownRun(hours: int, minutes: int, seconds: int, k: nat)
    requires Total(hours, minutes, seconds) >= 0
    ensures var n := Total(hours, minutes, seconds);
            var c := ElapsedTimes(Evaluated(Started(hours, minutes, seconds)), k);
            (k < n ==> c == CountdownState(n - k, true, false)) &&
            (k >= n ==> c == CountdownState(0, false, true))
  {
    var n := Total(hours, minutes, seconds);
    if n == 0 {
      FinishedStaysFinished(k);
    } else {
      CountsDownThenFinishes(n, k);
    }
  }

  /** Starting with 0:0:3, three ticks and an evaluation finish the countdown, and a
      fourth tick changes nothing; starting with 0:0:0 finishes on the first evaluation. */
  lemma ThreeSecondsAndZero()
    ensures Evaluated(Ticked(Ticked(Ticked(Started(0, 0, 3))))) == CountdownState(0, false, true)
    ensures Ticked(CountdownState(0, false, true)) == CountdownState(0, false, true)
    ensures Evaluated(Started(0, 0, 0)) == CountdownState(0, false, true)
  {
  }

  /** Over any sequence of starts with non-negative totals, ticks and evaluations,
      the invariant holds: the time left is never negative, and `finished` only holds
      of a countdown stopped at zero. */
  lemma {:induction false} RunKeepsValid(c: CountdownState, events: seq<Event>)
    requires Valid(c) && StartsNonNegative(events)
    ensures Valid(Run(c, events))
    decreases |events|
  {
    if events != [] {
      var next := Step(c, events[0]);
      assert Valid(next) by {
        match events[0]
        case StartPressed(h, m, s) =>
          assert events[0].StartPressed?;
        case IntervalFired =>
        case EffectRun =>
      }
      assert StartsNonNegative(events[1..]) by {
        forall i | 0 <= i < |events[1..]| && events[1..][i].StartPressed?
          ensures Total(events[1..][i].hours, events[1..][i].minutes, events[1..][i].seconds) >= 0
        {
          assert events[1..][i] == events[i + 1];
        }
      }
      RunKeepsValid(next, events[1..]);
    }
  }

  /** The countdown state of the timer screen, updated in place. */
  class Countdown {
    var time: int
    var running: bool
    var finished: bool

    /** The state as a value. */
    function State(): CountdownState
      reads this
    {
      CountdownState(time, running, finished)
    }

    /** The screen mounts with `useState(0)`, `useState(false)` and `useState(false)`. */
    constructor ()
      ensures State() == Initial
    {
      time := 0;
      running := false;
      finished := false;
    }

    /** `startTimer` with the three inputs already parsed as integers. */
    method Start(hours: int, minutes: int, seconds: int)
      modifies this
      ensures State() == Started(hours, minutes, seconds)
    {
      time := Total(hours, minutes, seconds);
      running := true;
      finished := false;
    }

    /** The interval's callback. */
    method Tick()
      modifies this
      ensures State() == Ticked(old(State()))
    {
      if running && time > 0 {
        time := time - 1;
      }
    }

    /** The effect's body; arming the interval is the scheduler's part and is left to
        the caller, who calls `Tick` once a second while `running && time > 0`. */
    method Evaluate()
      modifies this
      ensures State() == Evaluated(old(State()))
    {
      if time == 0 && running {
        running := false;
        finished := true;
      }
    }

    /** The text the screen shows. */
    function Display(): (r: string)
      reads this
      ensures |r| == 8 && r[2] == ':' && r[5] == ':'
      ensures time >= 0 ==> IsClockString(r)
    {
      if time >= 0 then FormatTimeFields(time); FormatTime(time) else FormatTime(time)
    }
  }

  /** Start Timer with 0:0:3, then three seconds each followed by the effect: the
      countdown ends at zero, stopped and finished, and a fourth tick changes nothing. */
  method ThreeSecondDemo() returns (time: int, running: bool, finished: bool)
    ensures time == 0 && !running && finished
  {
    var c := new Countdown();
    c.Start(0, 0, 3);
    c.Evaluate();
    c.Tick();
    c.Evaluate();
    c.Tick();
    c.Evaluate();
    c.Tick();
    c.Evaluate();
    c.Tick();
    c.Evaluate();
    time, running, finished := c.time, c.running, c.finished;
  }
}
