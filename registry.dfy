/**
 * The registry half of `MainWindow`: the fixed roster of boss timers, the
 * button handler that starts an idle timer and names it as the current boss,
 * and the once-a-second step that ticks every timer and then names the
 * running timer closest to expiry together with its time left.
 */
module Registry {
  import opened Wrappers
  import opened TimeFormat
  import opened Countdown

  /** The roster, in the order the window declares its boss buttons. */
  const ButtonIds: seq<string> := [
    "btn_naga", "btn_pixi", "btn_lancer", "btn_gvard", "btn_scare", "btn_kurolisk", "btn_vasilisk",
    "btn_sirena", "btn_kuru", "btn_triton", "btn_orc", "btn_troll", "btn_ogr", "btn_kobold",
    "btn_kaballo", "btn_flind", "btn_garpy", "btn_gigant", "btn_minotaur", "btn_chabon",
    "btn_bug", "btn_leprikon", "btn_skelet", "btn_spider"
  ]

  /** Every timer of a roster as first built, one per label, in roster order. */
  function Roster(labels: seq<string>): (ss: seq<TimerState>)
    ensures |ss| == |labels|
    ensures forall i :: 0 <= i < |labels| ==> ss[i] == Initial(labels[i])
  {
    seq(|labels|, i requires 0 <= i < |labels| => Initial(labels[i]))
  }

  /**
   * Timer `k` is the one `min(active_timers, key=remaining)` picks: it runs,
   * no running timer has less time left, and every running timer before it
   * in the roster has strictly more.
   */
  ghost predicate IsSoonest(ss: seq<TimerState>, k: nat) {
    && k < |ss|
    && ss[k].active
    && (forall j :: 0 <= j < |ss| && ss[j].active ==> ss[k].remaining <= ss[j].remaining)
    && (forall j :: 0 <= j < k && ss[j].active ==> ss[k].remaining < ss[j].remaining)
  }

  /**
   * The selection in `update_labels`: the first running timer with the least
   * time left, or none when no timer runs.
   */
  function Soonest(ss: seq<TimerState>): (k: Option<nat>)
    ensures k.None? <==> forall i :: 0 <= i < |ss| ==> !ss[i].active
    ensures forall j: nat :: k == Some(j) <==> IsSoonest(ss, j)
  {
    if ss == [] then None
    else
      var last := |ss| - 1;
      var rest := Soonest(ss[..last]);
      assert forall j :: 0 <= j < last ==> ss[..last][j] == ss[j];
      if !ss[last].active then rest
      else if rest.Some? && ss[rest.value].remaining <= ss[last].remaining then rest
      else Some(last)
  }

  /**
   * The two labels `update_labels` publishes, next boss and its `MM:SS`:
   * the soonest timer's name and time, or both empty exactly when no timer
   * runs.
   */
  function Summary(ss: seq<TimerState>): (labels: (string, string))
    ensures labels.1 == "" <==> forall i :: 0 <= i < |ss| ==> !ss[i].active
    ensures labels.1 == "" ==> labels.0 == ""
    ensures forall k: nat :: IsSoonest(ss, k) ==> labels == (ss[k].name, FormatTime(ss[k].remaining))
  {
    match Soonest(ss)
    case None => ("", "")
    case Some(k) => (ss[k].name, FormatTime(ss[k].remaining))
  }

  /** One tick of every timer. */
  function TickedAll(ss: seq<TimerState>): (ts: seq<TimerState>)
    ensures |ts| == |ss|
    ensures forall i :: 0 <= i < |ss| ==> ts[i] == Ticked(ss[i])
  {
    seq(|ss|, i requires 0 <= i < |ss| => Ticked(ss[i]))
  }

  /** `k` successive ticks of every timer. */
  function TickedAllN(ss: seq<TimerState>, k: nat): seq<TimerState>
    decreases k
  {
    if k == 0 then ss else TickedAllN(TickedAll(ss), k - 1)
  }

  /** Ticking the roster `k` times ticks each timer `k` times, independently of the others. */
  lemma {:induction false} TickedAllNAt(ss: seq<TimerState>, k: nat, i: nat)
    requires i < |ss|
    decreases k
    ensures |TickedAllN(ss, k)| == |ss|
    ensures TickedAllN(ss, k)[i] == TickedN(ss[i], k)
  {
    if k > 0 {
      TickedAllNAt(TickedAll(ss), k - 1, i);
    }
  }

  /**
   * The reported boss stays the same across a tick as long as its own
   * countdown does not end on that tick: every other running timer had at
   * least as much time left and loses the same second.
   */
  lemma SoonestSurvivesTick(ss: seq<TimerState>, k: nat)
    requires forall i :: 0 <= i < |ss| ==> ss[i].Inv()
    requires IsSoonest(ss, k) && ss[k].remaining > 1
    ensures Soonest(TickedAll(ss)) == Some(k)
  {
    var ts := TickedAll(ss);
    forall j | 0 <= j < |ts| && ts[j].active
      ensures ss[j].active && ts[j].remaining == ss[j].remaining - 1
    {
    }
    assert IsSoonest(ts, k);
  }

  /** On reachable timers the published time is empty or exactly five characters. */
  lemma SummaryTextWidth(ss: seq<TimerState>)
    requires forall i :: 0 <= i < |ss| ==> ss[i].Inv()
    ensures Summary(ss).1 == "" || |Summary(ss).1| == 5
  {
    match Soonest(ss)
    case None =>
    case Some(k) => FormatTimeWidth(ss[k].remaining);
  }

  /**
   * The roster after the button of timer `i` is pressed: an idle timer is
   * started, a running one is left alone.
   */
  function Pressed(ss: seq<TimerState>, i: nat): (r: seq<TimerState>)
    requires i < |ss|
    ensures |r| == |ss| && r[i].active
    ensures forall j :: 0 <= j < |ss| && j != i ==> r[j] == ss[j]
    ensures ss[i].active ==> r == ss
    ensures !ss[i].active ==> r[i].remaining == TimerDuration
  {
    if ss[i].active then ss else ss[i := Started(ss[i])]
  }

  /** A second press of the same button changes nothing: a running countdown is never restarted. */
  lemma PressTwice(ss: seq<TimerState>, i: nat)
    requires i < |ss|
    ensures Pressed(Pressed(ss, i), i) == Pressed(ss, i)
  {
  }

  /**
   * One boss triggered on a fresh roster: for `k` ticks under the duration it
   * is the reported boss with `TimerDuration - k` left; from then on both
   * labels are empty.
   */
  lemma SingleCountdown(labels: seq<string>, i: nat, k: nat)
    requires i < |labels|
    ensures Summary(TickedAllN(Pressed(Roster(labels), i), k)) ==
              if k < TimerDuration then (labels[i], FormatTime(TimerDuration - k)) else ("", "")
  {
    var ss := Pressed(Roster(labels), i);
    assert ss == Roster(labels)[i := Started(Initial(labels[i]))];
    var ts := TickedAllN(ss, k);
    TickedAllNAt(ss, k, i);
    ExpiresAfterDuration(Initial(labels[i]), k);
    forall j | 0 <= j < |ts| && j != i
      ensures !ts[j].active
    {
      TickedAllNAt(ss, k, j);
      TickedNSpec(ss[j], k);
    }
    assert ts[i] == TickedN(Started(Initial(labels[i])), k);
    if k < TimerDuration {
      OnlyOneRunning(ts, i);
    } else {
      NoneRunning(ts);
    }
  }

  /** With no timer running, both labels are cleared. */
  lemma NoneRunning(ss: seq<TimerState>)
    requires forall j :: 0 <= j < |ss| ==> !ss[j].active
    ensures Summary(ss) == ("", "")
  {
  }

  /** With a single timer running, that timer is the one reported. */
  lemma OnlyOneRunning(ss: seq<TimerState>, i: nat)
    requires i < |ss| && ss[i].active
    requires forall j :: 0 <= j < |ss| && j != i ==> !ss[j].active
    ensures Summary(ss) == (ss[i].name, FormatTime(ss[i].remaining))
  {
    assert IsSoonest(ss, i);
  }

  /** The states of the given timers, in order. */
  function StatesOf(ts: seq<Countdown.Timer>): (ss: seq<TimerState>)
    reads ts
    ensures |ss| == |ts|
    ensures forall i :: 0 <= i < |ts| ==> ss[i] == ts[i].State()
  {
    if ts == [] then [] else StatesOf(ts[..|ts| - 1]) + [ts[|ts| - 1].State()]
  }

  /** `MainWindow`'s timer state: the roster and the three labels it writes. */
  class Registry {
    const timers: seq<Timer>
    var now: string
    var next: string
    var timerText: string

    /** The roster holds distinct timers, each in a reachable state. */
    ghost predicate Valid()
      reads timers
    {
      && (forall i, j :: 0 <= i < j < |timers| ==> timers[i] != timers[j])
      && (forall i :: 0 <= i < |timers| ==> timers[i].Valid())
    }

    /** The roster's timers as values, in roster order. */
    function States(): (ss: seq<TimerState>)
      reads timers
      ensures |ss| == |timers|
      ensures forall i :: 0 <= i < |timers| ==> ss[i] == timers[i].State()
    {
      StatesOf(timers)
    }

    /**
     * The roster loop of `MainWindow.__init__`: one new timer per button,
     * named by the button's text, and three empty labels.
     */
    constructor (labels: seq<string>)
      requires |labels| == |ButtonIds|
      ensures Valid()
      ensures forall j :: 0 <= j < |timers| ==> fresh(timers[j])
      ensures States() == Roster(labels)
      ensures now == "" && next == "" && timerText == ""
    {
      var ts: seq<Timer> := [];
      var i := 0;
      while i < |labels|
        invariant 0 <= i <= |labels| && |ts| == i
        invariant forall j :: 0 <= j < i ==> fresh(ts[j])
        invariant forall j, k :: 0 <= j < k < i ==> ts[j] != ts[k]
        invariant forall j :: 0 <= j < i ==> ts[j].State() == Initial(labels[j])
      {
        var t := new Timer(labels[i]);
        ts := ts + [t];
        i := i + 1;
      }
      timers := ts;
      now, next, timerText := "", "", "";
    }

    /**
     * `handle_button`: an idle timer is started and becomes the current boss;
     * pressing the button of a running timer changes nothing.
     */
    method HandleButton(i: nat)
      requires Valid() && i < |timers|
      modifies timers[i], this`now
      ensures Valid()
      ensures States() == Pressed(old(States()), i)
      ensures now == if old(timers[i].active) then old(now) else timers[i].name
    {
      var t := timers[i];
      if !t.IsActive() {
        t.Start();
        now := t.name;
      }
    }

    /** `tick_all`: every timer ticks once in roster order, then the labels are refreshed. */
    method TickAll()
      requires Valid()
      modifies timers, this`next, this`timerText
      ensures Valid()
      ensures States() == TickedAll(old(States()))
      ensures (next, timerText) == Summary(States())
    {
      TickEach();
      ghost var ticked := States();
      UpdateLabels();
      assert States() == ticked;
    }

    /** The loop of `tick_all`: `tick` on every timer, in roster order. */
    method TickEach()
      requires Valid()
      modifies timers
      ensures Valid()
      ensures States() == TickedAll(old(States()))
    {
      ghost var before := States();
      var i := 0;
      while i < |timers|
        invariant 0 <= i <= |timers|
        invariant forall j :: 0 <= j < i ==> timers[j].State() == Ticked(before[j])
        invariant forall j :: i <= j < |timers| ==> timers[j].State() == before[j]
      {
        timers[i].Tick();
        i := i + 1;
      }
      assert States() == TickedAll(before);
    }

    /** `update_labels`: publishes the soonest running timer, or clears both labels. */
    method UpdateLabels()
      modifies this`next, this`timerText
      ensures (next, timerText) == Summary(States())
    {
      var ss := States();
      var choice := Soonest(ss);
      var name, text := "", "";
      if choice.Some? {
        var t := timers[choice.value];
        name := t.name;
        text := t.GetTime();
      }
      assert (name, text) == Summary(ss);
      next, timerText := name, text;
      assert States() == ss;
    }
  }
}
