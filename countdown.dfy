/**
 * One boss's countdown (`ButtonTimer`): a number of seconds left, whether the
 * countdown runs, and the text colour of the boss's button, which is black
 * until the first start, red while running and green once expired.
 *
 * `TimerState` and the functions on it are the specification; the class
 * `Timer` updates its fields in place as the source does and is proved to
 * follow that specification.
 */
module Countdown {
  import opened Wrappers
  import opened TimeFormat

  /** 19 minutes 55 seconds, the length of every countdown. */
  const TimerDuration: nat := 19 * 60 + 55

  /** The button's text colour, kept only as an abstract state. */
  datatype Colour = Black | Red | Green

  datatype TimerState = TimerState(name: string, remaining: int, active: bool, colour: Colour)
  {
    /**
     * What holds of every reachable timer: the time left is within the
     * duration, the timer runs exactly while time is left, and it is red
     * exactly while it runs.
     */
    ghost predicate Inv() {
      && 0 <= remaining <= TimerDuration
      && (active <==> remaining > 0)
      && (active <==> colour == Red)
    }
  }

  /** A freshly built timer (`ButtonTimer.__init__`). */
  function Initial(name: string): (s: TimerState)
    ensures s.Inv() && s.name == name && !s.active
  {
    TimerState(name, 0, false, Black)
  }

  /** `ButtonTimer.start`: from any state, a full countdown that runs. */
  function Started(s: TimerState): (t: TimerState)
    ensures t.Inv() && t.name == s.name
    ensures t.active && t.remaining == TimerDuration && t.colour == Red
  {
    s.(remaining := TimerDuration, active := true, colour := Red)
  }

  /**
   * `ButtonTimer.tick`: a running timer with time left loses one second and
   * stops, turning green, when that was its last second; any other timer is
   * left as it is.
   */
  function Ticked(s: TimerState): (t: TimerState)
    ensures s.Inv() ==> t.Inv()
    ensures t.name == s.name
    ensures !(s.active && s.remaining > 0) ==> t == s
    ensures s.active && s.remaining > 0 ==>
              && t.remaining == s.remaining - 1
              && (t.active <==> t.remaining != 0)
              && t.colour == (if t.remaining == 0 then Green else s.colour)
  {
    if s.active && s.remaining > 0 then
      var left := s.remaining - 1;
      if left == 0 then s.(remaining := left, active := false, colour := Green)
      else s.(remaining := left)
    else s
  }

  /** `k` successive ticks. */
  function TickedN(s: TimerState, k: nat): TimerState
    decreases k
  {
    if k == 0 then s else TickedN(Ticked(s), k - 1)
  }

  /**
   * From any reachable state, `k` ticks take `k` seconds off, down to zero;
   * the timer still runs exactly when more than `k` seconds were left, and it
   * has turned green exactly when it was running and ran out.
   */
  lemma {:induction false} TickedNSpec(s: TimerState, k: nat)
    requires s.Inv()
    decreases k
    ensures TickedN(s, k).Inv() && TickedN(s, k).name == s.name
    ensures TickedN(s, k).remaining == if k < s.remaining then s.remaining - k else 0
    ensures TickedN(s, k).active <==> k < s.remaining
    ensures TickedN(s, k).colour == if k < s.remaining || !s.active then s.colour else Green
  {
    if k > 0 {
      TickedNSpec(Ticked(s), k - 1);
    }
  }

  /**
   * A started countdown runs for exactly `TimerDuration` ticks: after fewer
   * it is still red and running with the difference left, after that many or
   * more it has stopped at zero and is green.
   */
  lemma ExpiresAfterDuration(s: TimerState, k: nat)
    ensures TickedN(Started(s), k).name == s.name
    ensures k < TimerDuration ==>
              && TickedN(Started(s), k).active
              && TickedN(Started(s), k).remaining == TimerDuration - k
              && TickedN(Started(s), k).colour == Red
    ensures k >= TimerDuration ==>
              && !TickedN(Started(s), k).active
              && TickedN(Started(s), k).remaining == 0
              && TickedN(Started(s), k).colour == Green
  {
    TickedNSpec(Started(s), k);
  }

  /** `ButtonTimer`: the fields the source updates in place. */
  class Timer {
    const name: string
    var remaining: int
    var active: bool
    var colour: Colour

    /** The timer's fields as a value. */
    function State(): TimerState
      reads this
    {
      TimerState(name, remaining, active, colour)
    }

    ghost predicate Valid()
      reads this
    {
      State().Inv()
    }

    constructor (name: string)
      ensures State() == Initial(name)
      ensures Valid()
    {
      this.name := name;
      remaining := 0;
      active := false;
      colour := Black;
    }

    /** `start`: unconditional, from any prior state. */
    method Start()
      modifies this
      ensures State() == Started(old(State()))
      ensures Valid()
    {
      remaining := TimerDuration;
      active := true;
      colour := Red;
    }

    /** `tick`: one second off a running timer; expiry stops it and turns it green. */
    method Tick()
      modifies this
      ensures State() == Ticked(old(State()))
      ensures old(Valid()) ==> Valid()
    {
      if active && remaining > 0 {
        remaining := remaining - 1;
        if remaining == 0 {
          active := false;
          colour := Green;
        }
      }
    }

    /** `is_active`: on a reachable timer, running means time is left. */
    function IsActive(): (r: bool)
      reads this
      ensures Valid() ==> (r <==> remaining > 0)
    {
      active
    }

    /**
     * `get_time`: the time left as `MM:SS`, which reads back as the time
     * left and is five characters on every reachable timer.
     */
    function GetTime(): (s: string)
      reads this
      ensures ParseTime(s) == Some(remaining)
      ensures Valid() ==> |s| == 5
    {
      var s := FormatTime(remaining);
      assert Valid() ==> |s| == 5 by {
        if Valid() {
          FormatTimeWidth(remaining);
        }
      }
      s
    }
  }
}
