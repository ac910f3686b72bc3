# Boss respawn timer — countdown engine

This project models the countdown engine of a small desktop boss-respawn
timer. Each boss in a fixed roster has its own button. Pressing the button of
an idle boss starts a countdown of 19 minutes 55 seconds and names that boss as
the current one. Once a second every countdown loses one second. The window
then shows the running countdown closest to expiry, as a boss name and an
`MM:SS` text. A button's text is black before its first start, red while its
countdown runs, and green after it expires.

Modules:

- `Wrappers`: the `Option` type.
- `TimeFormat`: `get_time`'s rendering of a number of seconds as `MM:SS`, using
  floor `divmod` by 60 and Python's `{:02d}` field format. A parser
  (`ParseTime`) reads the text back. Together they state that the rendering
  loses nothing.
- `Countdown`: one boss timer. `TimerState` is a value and `Initial`,
  `Started`, `Ticked` are the specification functions. The class `Timer`
  updates `remaining`, `active` and `colour` in place, as `ButtonTimer` does,
  and each of its methods is proved equal to its specification function.
- `Registry`: the roster and the window's timer logic. `Soonest` is the
  selection `min(active_timers, key=remaining)`, where ties go to the first in
  roster order. `Summary` gives the two labels that `update_labels` writes. The
  class `Registry` holds the roster (a fixed sequence of distinct `Timer`
  objects) and the three label texts.

The model follows main.py:

- Pressing the button of a running boss does nothing. The code checks
  `if not timer.is_active()` before starting (main.py:86). It does not restart
  the countdown.
- There is no pre-alert, no "expired" state separate from "idle", and no
  unknown-boss error. main.py has none of them. A button press reaches its
  timer through a bound callback, so the model takes the timer's roster index.

## Model

| member | source | states |
|---|---|---|
| TimeFormat.FormatField | main.py:40 | `{:02d}`: at least two characters; a negative number is '-' followed by the digits of its magnitude; a non-negative one is all digits with that value; no leading zero beyond the padding to two digits (none after the '-', none from 10 on); exactly two characters below 100, more from 100 on |
| TimeFormat.FieldRoundTrip | main.py:40 | reading a formatted field back gives the number it was formatted from |
| TimeFormat.TwoDigitField | main.py:40 | a field below 100 is exactly its tens digit followed by its units digit |
| TimeFormat.FormatTime | main.py:38-40 | `get_time`'s text has a colon three characters from the end; the seconds field is two digits worth `r % 60` (< 60); parsing the whole text gives back `r`, for every integer `r` |
| TimeFormat.FormatTimeInjective | main.py:38-40 | two different second counts never give the same text |
| TimeFormat.FormatTimeDigits | main.py:38-40 | below 100 minutes the text is exactly `M M : S S`, the digits of `r / 60` and `r % 60` |
| TimeFormat.FormatTimeWidth | main.py:38-40 | for a non-negative count the text is 5 characters if and only if the count is under 100 minutes |
| Countdown.Initial | main.py:18-21 | a new timer is idle, with nothing left, and satisfies the timer invariant (0 <= remaining <= 1195; running iff time left iff red) |
| Countdown.Started | main.py:23-26 | from any state, `start` gives a running red timer with exactly 1195 s left, which satisfies the invariant, and keeps the name |
| Countdown.Ticked | main.py:28-33 | `tick` keeps the invariant; it changes nothing unless the timer runs with time left; otherwise it takes one second off, and on reaching 0 it stops and turns green |
| Countdown.TickedNSpec | main.py:28-33 | from any reachable state, k ticks leave max(remaining - k, 0); the timer runs iff k < remaining; it is green iff it ran and ran out; the invariant holds throughout |
| Countdown.ExpiresAfterDuration | main.py:12-33 | after `start`, the timer is still red and running with 1195 - k left after every k < 1195 ticks; after 1195 or more ticks it has stopped at 0 and is green |
| Countdown.Timer.constructor | main.py:15-21 | the fields are those of `Initial`, and the invariant holds |
| Countdown.Timer.Start | main.py:23-26 | the new fields are `Started(old fields)` from any prior state, and the invariant holds |
| Countdown.Timer.Tick | main.py:28-33 | the new fields are `Ticked(old fields)`, and the invariant is preserved |
| Countdown.Timer.IsActive | main.py:35-36 | on a timer satisfying the invariant, `is_active` is true exactly when time is left |
| Countdown.Timer.GetTime | main.py:38-40 | the text parses back to `remaining`; on a timer satisfying the invariant it is exactly 5 characters |
| Registry.Soonest | main.py:96-98 | none iff no timer runs; otherwise k is the running timer with the least time left, and every running timer before it in the roster has strictly more (first wins on ties); k is the only such index |
| Registry.Summary | main.py:95-103 | both labels are empty iff no timer runs; otherwise they are the soonest timer's name and its `MM:SS` |
| Registry.TickedAllNAt | main.py:90-92 | ticking the whole roster k times ticks each timer k times, whatever the others do |
| Registry.SoonestSurvivesTick | main.py:90-98 | on reachable timers, the reported boss stays reported across a tick unless its own countdown ends on that tick |
| Registry.SummaryTextWidth | main.py:97-103 | on reachable timers the published time is empty or exactly 5 characters |
| Registry.OnlyOneRunning | main.py:96-100 | with one timer running, the labels name it and show its time |
| Registry.NoneRunning | main.py:101-103 | with no timer running, both labels are empty strings |
| Registry.SingleCountdown | main.py:84-103 | one boss started on a fresh roster is reported with 1195 - k left after each k < 1195 ticks; from tick 1195 on both labels are empty |
| Registry.Registry.constructor | main.py:61-78 | one new, distinct, idle timer per roster button, named by the button's text, in roster order; all three labels empty |
| Registry.Pressed | main.py:84-87 | after a press the pressed timer runs; an idle one is started with the full 1195 seconds, a running one and every other timer are left as they were |
| Registry.PressTwice | main.py:85-87 | pressing the same button twice is the same as pressing it once: a running countdown is never restarted |
| Registry.Registry.HandleButton | main.py:84-88 | the roster becomes `Pressed` of the old roster (an idle timer is started, nothing else changes), and `now` becomes its name only when it was idle |
| Registry.Registry.TickEach | main.py:91-92 | every timer in the roster is ticked exactly once, and no timer changes in any other way; the roster invariant is kept |
| Registry.Registry.TickAll | main.py:90-93 | the roster ticks once, then `next` and `timerText` equal `Summary` of the new states; `now` is unchanged |
| Registry.Registry.UpdateLabels | main.py:95-103 | `next` and `timerText` equal `Summary` of the current states; no timer changes |

## Left out

- PyQt widgets and wiring are not modelled: `setupUi`, fonts, `setStyleSheet`, icons, `clicked.connect` and the window flag. They are calls into a GUI library. The button colour is kept only as the abstract `Colour` state.
- The label of each boss comes from `btn.text()`, the widget's text as `Ui_MainWindow.setupUi` set it (main.py:6, main.py:51). The generated `Ui_MainWindow` module is not part of this model, so the constructor takes the labels as a parameter, one per entry of `ButtonIds`.
- The `getattr(self.ui, name)` lookup of each button is not modelled. The roster is the fixed sequence built once.
- The one-second `QTimer` (main.py:80-82) is not modelled as real time. A tick is an explicit call of `TickAll`.
- The process identity registration (main.py:8-9) and the `__main__` block (main.py:105-112) are not modelled. They are OS and process plumbing.
- Registry.Registry.HandleButton: takes the timer's roster index, not the timer object. In the source the callback is bound to a timer of the roster, so an unknown boss cannot occur.
- main.py has no screen-capture detection, speech queue or pre-alert, so none is modelled.
