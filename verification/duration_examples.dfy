/** Worked examples of the `HH:MM:SS` text of `getVideoDuration`
    (MainActivity.kt), each over the whole one-second window of durations
    that print alike. */
module DurationExamples {
  import opened Decimal
  import opened Kotlin
  import opened ClockText

  /** One hour, one minute and one second. */
  lemma FormatDurationHourMinuteSecond(ms: Long)
    requires 3_661_000 <= ms < 3_662_000
    ensures FormatDuration(ms) == "01:01:01"
  {
    FormatDurationOfClock(ms, Clock(1, 1, 1));
    ClockTextHourMinuteSecond();
  }

  /** Fifty-nine seconds, up to the last millisecond before the minute. */
  lemma FormatDurationFiftyNineSeconds(ms: Long)
    requires 59_000 <= ms < 60_000
    ensures FormatDuration(ms) == "00:00:59"
  {
    FormatDurationOfClock(ms, Clock(0, 0, 59));
    ClockTextFiftyNineSeconds();
  }

  /** At 100 hours the hour field outgrows its two-character width. */
  lemma FormatDurationHundredHours(ms: Long)
    requires 360_000_000 <= ms < 360_001_000
    ensures FormatDuration(ms) == "100:00:00"
  {
    FormatDurationOfClock(ms, Clock(100, 0, 0));
    ClockTextHundredHours();
  }

  /** A negative duration, which `toLong()` accepts, prints every field with
      its own minus sign: Kotlin's `/` and `%` truncate toward zero, so the
      whole window `-3,661,999 .. -3,661,000` ms prints alike. */
  lemma FormatDurationNegative(ms: Long)
    requires -3_661_999 <= ms <= -3_661_000
    ensures FormatDuration(ms) == "-1:-1:-1"
  {
    assert Quot(ms, 1000) == -3661;
    assert Split(-3661) == Clock(-1, -1, -1);
    assert FormatPad2(-1) == "-1";
  }

  lemma ClockTextHourMinuteSecond()
    ensures FormatClock(Clock(1, 1, 1)) == "01:01:01"
  {
    FormatClockDigits(Clock(1, 1, 1));
  }

  lemma ClockTextFiftyNineSeconds()
    ensures FormatClock(Clock(0, 0, 59)) == "00:00:59"
  {
    FormatClockDigits(Clock(0, 0, 59));
  }

  lemma ClockTextHundredHours()
    ensures FormatClock(Clock(100, 0, 0)) == "100:00:00"
  {
    PadDigits(0);
    assert FormatPad2(100) == "100" by {
      assert Show(100) == Show(10) + ['0'] && Show(10) == Show(1) + ['0'];
    }
  }
}
