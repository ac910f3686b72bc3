/**
 * Rendering of a countdown as `MM:SS`, as `ButtonTimer.get_time` does it:
 * `divmod(remaining, 60)` followed by two `{:02d}` fields joined by a colon.
 * A parser for the same format is the partner that shows the rendering loses
 * nothing.
 */
module TimeFormat {
  import opened Wrappers

  predicate IsDigit(c: char) {
    '0' <= c <= '9'
  }

  /** Every character of `s` is a decimal digit. */
  predicate IsDigits(s: string) {
    s == [] || (IsDigits(s[..|s| - 1]) && IsDigit(s[|s| - 1]))
  }

  /** The value of a digit character (any character maps to some number). */
  function DigitValue(c: char): int {
    c as int - '0' as int
  }

  function DigitChar(d: nat): (c: char)
    requires d < 10
    ensures IsDigit(c) && DigitValue(c) == d
  {
    ('0' as int + d) as char
  }

  /** The number a string of decimal digits denotes, read left to right. */
  function Value(s: string): int {
    if s == [] then 0 else Value(s[..|s| - 1]) * 10 + DigitValue(s[|s| - 1])
  }

  /** A leading zero does not change the value of a digit string. */
  lemma {:induction false} LeadingZero(s: string)
    ensures Value(['0'] + s) == Value(s)
    ensures IsDigits(s) ==> IsDigits(['0'] + s)
  {
    if s != [] {
      var t := ['0'] + s;
      assert t[..|t| - 1] == ['0'] + s[..|s| - 1];
      assert t[|t| - 1] == s[|s| - 1];
      LeadingZero(s[..|s| - 1]);
    }
  }

  /** The canonical decimal digits of `n`: no leading zero, "0" for zero. */
  function Decimal(n: nat): (s: string)
    ensures IsDigits(s) && Value(s) == n
    ensures 1 <= |s| && IsDigit(s[0]) && (|s| > 1 ==> s[0] != '0')
    ensures n < 10 <==> |s| == 1
    ensures n < 100 <==> |s| <= 2
  {
    if n < 10 then [DigitChar(n)]
    else
      var prefix := Decimal(n / 10);
      var s := prefix + [DigitChar(n % 10)];
      assert s[..|s| - 1] == prefix;
      s
  }

  /** Left-pads `s` with '0' up to `width` characters. */
  function ZeroPad(s: string, width: nat): (r: string)
    decreases width - |s|
    ensures |r| == if |s| < width then width else |s|
    ensures Value(r) == Value(s)
    ensures IsDigits(s) ==> IsDigits(r)
    ensures |s| > 0 && IsDigit(s[0]) ==> IsDigit(r[0])
  {
    if |s| < width then
      LeadingZero(s);
      ZeroPad(['0'] + s, width)
    else s
  }

  /** Python's `f"{n:02d}"`: at least two digits, zero-padded after the sign. */
  function FormatField(n: int): (f: string)
    ensures |f| >= 2
    ensures n < 0 ==> f[0] == '-' && IsDigits(f[1..]) && Value(f[1..]) == -n
    ensures 0 <= n ==> IsDigits(f) && IsDigit(f[0]) && Value(f) == n
    ensures 0 <= n < 100 ==> |f| == 2
    ensures 100 <= n ==> |f| > 2
    ensures 10 <= n ==> f[0] != '0'
    ensures n < 0 ==> f[1] != '0'
  {
    if n < 0 then
      var f := "-" + Decimal(-n);
      assert f[1..] == Decimal(-n);
      f
    else
      ZeroPad(Decimal(n), 2)
  }

  /** Reads back one field as written by `FormatField`: an optional '-' and digits. */
  function ParseField(f: string): Option<int> {
    if |f| >= 2 && f[0] == '-' && IsDigits(f[1..]) then Some(-Value(f[1..]))
    else if |f| >= 1 && IsDigits(f) then Some(Value(f))
    else None
  }

  /** Reading a field back gives the number it was written from. */
  lemma FieldRoundTrip(n: int)
    ensures ParseField(FormatField(n)) == Some(n)
  {
  }

  /**
   * `get_time`: minutes and seconds by floor division (for a positive
   * divisor Dafny's `/` and `%` agree with Python's `divmod`).
   */
  function FormatTime(r: int): (s: string)
    ensures |s| >= 5 && s[|s| - 3] == ':'
    ensures IsDigits(s[|s| - 2..]) && Value(s[|s| - 2..]) == r % 60 < 60
    ensures ParseTime(s) == Some(r)
  {
    JoinedFieldsParse(r);
    Joined(FormatField(r / 60), FormatField(r % 60))
  }

  /** The minutes and seconds fields of `r`, joined, parse back to `r`. */
  lemma JoinedFieldsParse(r: int)
    ensures ParseTime(Joined(FormatField(r / 60), FormatField(r % 60))) == Some(r)
  {
    FieldRoundTrip(r / 60);
    ParseJoined(FormatField(r / 60), FormatField(r % 60), r / 60);
    assert r / 60 * 60 + r % 60 == r;
  }

  /** `MM` and `SS` joined by a colon; the seconds field is always two characters. */
  function Joined(minutes: string, seconds: string): (s: string)
    requires |seconds| == 2
    ensures |s| == |minutes| + 3 && s[|s| - 3] == ':'
    ensures s[..|s| - 3] == minutes && s[|s| - 2..] == seconds
  {
    minutes + ":" + seconds
  }

  /** The inverse of `FormatTime`: `MM:SS` back to a number of seconds. */
  function ParseTime(s: string): Option<int> {
    if |s| >= 5 && s[|s| - 3] == ':' && IsDigits(s[|s| - 2..]) then
      match ParseField(s[..|s| - 3])
      case Some(m) => Some(m * 60 + Value(s[|s| - 2..]))
      case None => None
    else None
  }

  /** Parsing a joined `MM:SS` reads the minutes field and the two-digit seconds field. */
  lemma ParseJoined(minutes: string, seconds: string, m: int)
    requires |minutes| >= 2 && ParseField(minutes) == Some(m)
    requires |seconds| == 2 && IsDigits(seconds)
    ensures ParseTime(Joined(minutes, seconds)) == Some(m * 60 + Value(seconds))
  {
    var s := Joined(minutes, seconds);
    assert s[..|s| - 3] == minutes;
  }

  /** Distinct countdowns never show the same text. */
  lemma FormatTimeInjective(a: int, b: int)
    ensures FormatTime(a) == FormatTime(b) ==> a == b
  {
  }

  /** A field below 100 is its two decimal digits, the tens first. */
  lemma TwoDigitField(n: int)
    requires 0 <= n < 100
    ensures FormatField(n) == [DigitChar(n / 10), DigitChar(n % 10)]
  {
    if n < 10 {
      assert Decimal(n) == [DigitChar(n)];
      assert FormatField(n) == ZeroPad(Decimal(n), 2) == ['0'] + Decimal(n);
    } else {
      assert Decimal(n / 10) == [DigitChar(n / 10)];
      assert FormatField(n) == Decimal(n) == Decimal(n / 10) + [DigitChar(n % 10)];
    }
  }

  /** Below 100 minutes both fields are exactly two digits: `MM:SS`. */
  lemma FormatTimeDigits(r: int)
    requires 0 <= r < 100 * 60
    ensures FormatTime(r) == [DigitChar(r / 60 / 10), DigitChar(r / 60 % 10), ':',
                              DigitChar(r % 60 / 10), DigitChar(r % 60 % 10)]
  {
    var m, sec := r / 60, r % 60;
    assert 0 <= m < 100 && 0 <= sec < 60;
    TwoDigitField(m);
    TwoDigitField(sec);
    assert FormatTime(r) == FormatField(m) + ":" + FormatField(sec);
  }

  /** For a non-negative count the text is five characters exactly when it is under 100 minutes. */
  lemma FormatTimeWidth(r: int)
    requires 0 <= r
    ensures |FormatTime(r)| == 5 <==> r < 100 * 60
  {
    assert FormatTime(r) == FormatField(r / 60) + ":" + FormatField(r % 60);
    if r < 100 * 60 {
      FormatTimeDigits(r);
    }
  }
}
