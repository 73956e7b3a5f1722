/** The arithmetic of the two deadline countdowns on the landing pages
    (src/components/landing/deadline-countdown.tsx and
    src/components/landing/countdown.tsx, which repeat the same
    `calculateTimeLeft` and `TimeUnit`): a millisecond difference split into
    days, hours, minutes and seconds, the zero-padded display of one
    component, and the condition under which the "deadline passed" view
    replaces the counter. Times are whole milliseconds since the epoch, as
    `Date.prototype.getTime` returns them. */
module CountdownMath {
  import opened Arithmetic

  const MsPerSecond := 1000
  const MsPerMinute := 60 * MsPerSecond
  const MsPerHour := 60 * MsPerMinute
  const MsPerDay := 24 * MsPerHour

  datatype TimeLeft = TimeLeft(days: nat, hours: nat, minutes: nat, seconds: nat)

  /** `Math.floor(difference / unit) % range`, for a positive difference, is
      the whole number of units taken modulo the range. */
  function CalculateTimeLeft(targetMs: int, nowMs: int): (t: TimeLeft)
    ensures targetMs - nowMs <= 0 ==> t == TimeLeft(0, 0, 0, 0)
    ensures t.hours < 24 && t.minutes < 60 && t.seconds < 60
  {
    var difference := targetMs - nowMs;
    if difference <= 0 then TimeLeft(0, 0, 0, 0)
    else TimeLeft(
      difference / MsPerDay,
      (difference / MsPerHour) % 24,
      (difference / MsPerMinute) % 60,
      (difference / MsPerSecond) % 60)
  }

  /** The number of whole seconds the components stand for. */
  function TotalSeconds(t: TimeLeft): nat {
    t.days * 86400 + t.hours * 3600 + t.minutes * 60 + t.seconds
  }

  /** Dividing by `unit` and then by `factor` is dividing by their product,
      for the units of the countdown. */
  lemma DivideInSteps(a: int, unit: int, factor: int)
    requires a >= 0
    requires (unit, factor) in [(1000, 60), (60000, 60), (3600000, 24)]
    ensures a / unit / factor == a / (unit * factor)
  {
    var q, r := a / unit, a % unit;
    var q2, r2 := q / factor, q % factor;
    if unit == 1000 {
      DivUnique(a, 60000, q2, 1000 * r2 + r);
    } else if unit == 60000 {
      DivUnique(a, 3600000, q2, 60000 * r2 + r);
    } else {
      DivUnique(a, 86400000, q2, 3600000 * r2 + r);
    }
  }

  /** The components recompose to the whole seconds left. */
  lemma RecomposesToSeconds(targetMs: int, nowMs: int)
    requires targetMs - nowMs > 0
    ensures TotalSeconds(CalculateTimeLeft(targetMs, nowMs)) == (targetMs - nowMs) / MsPerSecond
  {
    var d := targetMs - nowMs;
    var s := d / 1000;
    var m := s / 60;
    var h := m / 60;
    DivideInSteps(d, 1000, 60);
    DivideInSteps(d, 60000, 60);
    DivideInSteps(d, 3600000, 24);
    assert d / MsPerMinute == m;
    assert d / MsPerHour == h;
    assert d / MsPerDay == h / 24;
    assert s == 60 * m + s % 60;
    assert m == 60 * h + m % 60;
    assert h == 24 * (h / 24) + h % 24;
    var t := CalculateTimeLeft(targetMs, nowMs);
    assert t == TimeLeft(h / 24, h % 24, m % 60, s % 60);
  }

  /** The counter is replaced by the "deadline passed" view when days, hours
      and minutes are all 0. */
  predicate ShowsPassed(t: TimeLeft) {
    t.days == 0 && t.hours == 0 && t.minutes == 0
  }

  /** So the view reports the deadline as passed while up to 59 seconds are
      still left: exactly when less than a minute remains. */
  lemma PassedWithinLastMinute(targetMs: int, nowMs: int)
    ensures ShowsPassed(CalculateTimeLeft(targetMs, nowMs)) <==> targetMs - nowMs < MsPerMinute
  {
    var d := targetMs - nowMs;
    if d > 0 {
      RecomposesToSeconds(targetMs, nowMs);
      var t := CalculateTimeLeft(targetMs, nowMs);
      if d < MsPerMinute {
        assert d / MsPerSecond < 60;
      } else {
        assert d / MsPerSecond >= 60;
      }
    }
  }

  /** Once the passed view shows, it keeps showing on every later tick. */
  lemma PassedStaysPassed(targetMs: int, nowMs: int, laterMs: int)
    requires nowMs <= laterMs
    requires ShowsPassed(CalculateTimeLeft(targetMs, nowMs))
    ensures ShowsPassed(CalculateTimeLeft(targetMs, laterMs))
  {
    PassedWithinLastMinute(targetMs, nowMs);
    PassedWithinLastMinute(targetMs, laterMs);
  }

  // ---------------------------------------------------------------------------
  // TimeUnit: `value < 10 ? `0${value}` : value`
  // ---------------------------------------------------------------------------

  function DigitChar(d: nat): (c: char)
    requires d < 10
    ensures '0' <= c <= '9'
  {
    ('0' as int + d) as char
  }

  function DigitValue(c: char): nat {
    if '0' <= c <= '9' then (c as int - '0' as int) as nat else 0
  }

  /** The decimal numeral of a whole number, as `${value}` renders it. */
  function Decimal(n: nat): (s: string)
    ensures |s| >= 1
    ensures forall i :: 0 <= i < |s| ==> '0' <= s[i] <= '9'
    ensures n >= 10 ==> s[0] != '0'
  {
    if n < 10 then [DigitChar(n)] else Decimal(n / 10) + [DigitChar(n % 10)]
  }

  /** Reading a string of digits back as a number. */
  function ParseDecimal(s: string): nat {
    if s == [] then 0 else ParseDecimal(s[..|s| - 1]) * 10 + DigitValue(s[|s| - 1])
  }

  lemma {:induction false} ParseDecimalOfDecimal(n: nat)
    ensures ParseDecimal(Decimal(n)) == n
  {
    if n < 10 {
      assert DigitValue(DigitChar(n)) == n;
    } else {
      var s := Decimal(n / 10) + [DigitChar(n % 10)];
      assert s[..|s| - 1] == Decimal(n / 10);
      assert DigitValue(s[|s| - 1]) == n % 10;
      ParseDecimalOfDecimal(n / 10);
      assert ParseDecimal(s) == (n / 10) * 10 + n % 10;
    }
  }

  /** A leading zero does not change the value read. */
  lemma {:induction false} ParseDecimalLeadingZero(s: string)
    ensures ParseDecimal("0" + s) == ParseDecimal(s)
  {
    if s != [] {
      var t := "0" + s;
      assert t[..|t| - 1] == "0" + s[..|s| - 1];
      ParseDecimalLeadingZero(s[..|s| - 1]);
    }
  }

  /** The text `TimeUnit` shows for a component. */
  function Pad(value: nat): (s: string)
    ensures |s| >= 2
    ensures s[0] == '0' <==> value < 10
    ensures value >= 10 ==> s == Decimal(value)
  {
    if value < 10 then "0" + Decimal(value) else Decimal(value)
  }

  /** The padded text still reads as the value shown. */
  lemma PadReadsBack(value: nat)
    ensures ParseDecimal(Pad(value)) == value
  {
    ParseDecimalOfDecimal(value);
    if value < 10 {
      ParseDecimalLeadingZero(Decimal(value));
    }
  }

  /** The hours, minutes and seconds of a countdown always show as two digits. */
  lemma ClockComponentsShowTwoDigits(targetMs: int, nowMs: int)
    ensures var t := CalculateTimeLeft(targetMs, nowMs);
      |Pad(t.hours)| == 2 && |Pad(t.minutes)| == 2 && |Pad(t.seconds)| == 2
  {
    var t := CalculateTimeLeft(targetMs, nowMs);
    TwoDigitsBelowHundred(t.hours);
    TwoDigitsBelowHundred(t.minutes);
    TwoDigitsBelowHundred(t.seconds);
  }

  lemma TwoDigitsBelowHundred(value: nat)
    requires value < 100
    ensures |Pad(value)| == 2
  {
    if value >= 10 {
      assert Decimal(value) == Decimal(value / 10) + [DigitChar(value % 10)];
    }
  }
}
