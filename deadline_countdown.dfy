/** The `DeadlineCountdown` component of src/components/landing/deadline-countdown.tsx:
    a target instant given by the page, and the time left until it, which a
    one-second interval recomputes. Each firing of the interval is a call of
    `Tick` with the clock reading of that moment. */
module DeadlineCountdown {
  import opened CountdownMath

  class DeadlineCountdownView {
    const targetMs: int
    var timeLeft: TimeLeft

    /** The first render computes the time left from the clock at mount. */
    constructor (targetMs: int, nowMs: int)
      ensures this.targetMs == targetMs
      ensures timeLeft == CalculateTimeLeft(targetMs, nowMs)
    {
      this.targetMs := targetMs;
      timeLeft := CalculateTimeLeft(targetMs, nowMs);
    }

    /** The interval callback: the state is replaced by a fresh computation. */
    method Tick(nowMs: int)
      modifies this
      ensures timeLeft == CalculateTimeLeft(targetMs, nowMs)
    {
      timeLeft := CalculateTimeLeft(targetMs, nowMs);
    }

    /** The passed view is rendered instead of the four units. */
    predicate ShowsPassedView()
      reads this
    {
      ShowsPassed(timeLeft)
    }

    /** The text of each of the four units. */
    function UnitTexts(): (texts: seq<string>)
      reads this
      ensures |texts| == 4
      ensures forall i :: 0 <= i < 4 ==> |texts[i]| >= 2
    {
      [Pad(timeLeft.days), Pad(timeLeft.hours), Pad(timeLeft.minutes), Pad(timeLeft.seconds)]
    }
  }
}
