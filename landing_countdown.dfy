/** The `Countdown` component of src/components/landing/countdown.tsx: the
    same time-left counter as the deadline countdown, aimed at a fixed local
    time, 23:59:59 on 19 June (month index 5) of the current year. The
    interval callback is created once, on the first render, so every tick
    counts down to the target computed then. The current year and the local
    time zone's offset are parameters. */
module LandingCountdown {
  import opened CountdownMath
  import opened Arithmetic

  /** Days from 1970-01-01 to the given proleptic Gregorian date (month 1 to
      12); the day number `Date` uses. */
  function DaysFromCivil(year: int, month: int, day: int): int
    requires 1 <= month <= 12
  {
    var y := if month <= 2 then year - 1 else year;
    var shifted := if month > 2 then month - 3 else month + 9;
    var dayOfYear := (153 * shifted + 2) / 5 + day - 1;
    MarchFirst(y) + dayOfYear
  }

  /** Days from 1970-01-01 to 1 March of `y`, counted in 400-year eras of
      146097 days; the years of an era start in March, so a leap day falls
      at the end of the year before. */
  function MarchFirst(y: int): int {
    var era := y / 400;
    var yearOfEra := y - era * 400;
    era * 146097 + yearOfEra * 365 + yearOfEra / 4 - yearOfEra / 100 - 719468
  }

  /** From one March to the next there are 366 days when the February in
      between is a leap one, and 365 otherwise. */
  lemma YearLength(y: int)
    ensures MarchFirst(y + 1) - MarchFirst(y) == if IsLeapYear(y + 1) then 366 else 365
  {
    var era := y / 400;
    var yearOfEra := y - era * 400;
    var next := yearOfEra + 1;
    if next < 400 {
      DivUnique(y + 1, 400, era, next);
      DivUnique(y + 1, 4, era * 100 + next / 4, next % 4);
      DivUnique(y + 1, 100, era * 4 + next / 100, next % 100);
      DivStep(yearOfEra, 4);
      DivStep(yearOfEra, 100);
    } else {
      DivUnique(y + 1, 400, era + 1, 0);
      DivUnique(y + 1, 4, (era + 1) * 100, 0);
    }
  }

  /** Counting up by one moves the quotient exactly when it reaches a
      multiple. */
  lemma DivStep(n: int, d: int)
    requires d > 0
    ensures (n + 1) / d == n / d + (if (n + 1) % d == 0 then 1 else 0)
  {
    var q, r := n / d, n % d;
    if r + 1 == d {
      DivUnique(n + 1, d, q + 1, 0);
    } else {
      DivUnique(n + 1, d, q, r + 1);
    }
  }

  /** The epoch and the days after it in the same month. */
  lemma DaysFromCivilCounts(year: int, month: int, day: int)
    requires 1 <= month <= 12
    ensures DaysFromCivil(1970, 1, 1) == 0
    ensures DaysFromCivil(year, month, day + 1) == DaysFromCivil(year, month, day) + 1
  {
  }

  /** The Gregorian leap-year rule. */
  predicate IsLeapYear(year: int) {
    year % 4 == 0 && (year % 100 != 0 || year % 400 == 0)
  }

  /** The number of days in `month` of `year`. */
  function MonthLength(year: int, month: int): (n: int)
    requires 1 <= month <= 12
    ensures 28 <= n <= 31
    ensures month == 2 ==> (n == 29 <==> IsLeapYear(year))
  {
    if month == 2 then (if IsLeapYear(year) then 29 else 28)
    else if month in {4, 6, 9, 11} then 30
    else 31
  }

  /** The day after the last of a month is the first of the next one, the
      next year's January after December: the count follows the Gregorian
      calendar across month and year ends. */
  lemma MonthEnds(year: int, month: int)
    requires 1 <= month <= 12
    ensures DaysFromCivil(year, month, MonthLength(year, month)) + 1 ==
      if month == 12 then DaysFromCivil(year + 1, 1, 1) else DaysFromCivil(year, month + 1, 1)
  {
    if month == 2 {
      YearLength(year - 1);
    }
  }

  /** A few dates: the first day of March in 2000, the 29th of February in
      2024, and the day before the epoch. */
  lemma KnownDates()
    ensures DaysFromCivil(2000, 3, 1) == 11017
    ensures DaysFromCivil(2024, 2, 29) == 19782
    ensures DaysFromCivil(1969, 12, 31) == -1
  {
  }

  /** `new Date(year, monthIndex, day, h, m, s).getTime()` in a time zone
      `utcOffsetMs` ahead of UTC; years 0 to 99 mean 1900 to 1999. */
  function LocalDateMs(year: int, monthIndex: int, day: int, h: int, m: int, s: int, utcOffsetMs: int): int
    requires 0 <= monthIndex < 12
  {
    var fullYear := if 0 <= year <= 99 then 1900 + year else year;
    DaysFromCivil(fullYear, monthIndex + 1, day) * MsPerDay
      + h * MsPerHour + m * MsPerMinute + s * MsPerSecond
      - utcOffsetMs
  }

  /** The target: 23:59:59 local time on month index 5, day 19. */
  function TargetMs(currentYear: int, utcOffsetMs: int): (t: int)
    ensures t + MsPerSecond == LocalDateMs(currentYear, 5, 20, 0, 0, 0, utcOffsetMs)
  {
    LocalDateMs(currentYear, 5, 19, 23, 59, 59, utcOffsetMs)
  }

  class LandingCountdownView {
    const targetMs: int
    var timeLeft: TimeLeft

    /** The first render fixes the target from the current year. */
    constructor (currentYear: int, utcOffsetMs: int, nowMs: int)
      ensures targetMs == TargetMs(currentYear, utcOffsetMs)
      ensures timeLeft == CalculateTimeLeft(targetMs, nowMs)
    {
      targetMs := TargetMs(currentYear, utcOffsetMs);
      timeLeft := CalculateTimeLeft(TargetMs(currentYear, utcOffsetMs), nowMs);
    }

    /** The interval callback of the first render. */
    method Tick(nowMs: int)
      modifies this
      ensures timeLeft == CalculateTimeLeft(targetMs, nowMs)
    {
      timeLeft := CalculateTimeLeft(targetMs, nowMs);
    }

    predicate ShowsPassedView()
      reads this
    {
      ShowsPassed(timeLeft)
    }
  }

  /** From the last minute before the target on, the passed message shows. */
  lemma PassedFromLastMinute(currentYear: int, utcOffsetMs: int, nowMs: int)
    ensures ShowsPassed(CalculateTimeLeft(TargetMs(currentYear, utcOffsetMs), nowMs))
      <==> nowMs > TargetMs(currentYear, utcOffsetMs) - MsPerMinute
  {
    PassedWithinLastMinute(TargetMs(currentYear, utcOffsetMs), nowMs);
  }
}
