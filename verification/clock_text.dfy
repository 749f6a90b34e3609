/** The `HH:MM:SS` clock text of `getVideoDuration` (MainActivity.kt): a
    whole number of seconds split into hours, minutes and seconds with
    Kotlin's truncating `/` and `%`, each printed with `%02d`. */
module ClockText {
  import opened Wrappers
  import opened Decimal
  import opened Kotlin

  /** The three fields the duration string prints. */
  datatype Clock = Clock(hours: int, minutes: int, seconds: int)

  /** What a clock stands for, in seconds. */
  function TotalSeconds(c: Clock): int {
    c.hours * 3600 + c.minutes * 60 + c.seconds
  }

  /** A clock whose minutes and seconds are proper, i.e. below sixty. */
  predicate Normal(c: Clock) {
    c.hours >= 0 && 0 <= c.minutes < 60 && 0 <= c.seconds < 60
  }

  lemma {:induction false} NestedRem(a: nat)
    ensures (a % 3600) % 60 == a % 60
    ensures (a % 3600) / 60 == (a / 60) % 60
  {
    var h := a / 3600;
    var r := a % 3600;
    assert a == 3600 * h + r;
    assert a == 60 * (60 * h + r / 60) + r % 60;
    assert a / 60 == 60 * h + r / 60;
  }

  /** The split of a non-negative number of seconds (Euclidean and truncating
      division agree there). */
  lemma {:induction false} SplitNonNegative(t: nat)
    ensures var c := Clock(t / 3600, (t % 3600) / 60, t % 60);
      TotalSeconds(c) == t && Normal(c)
  {
    NestedRem(t);
    var r := t % 3600;
    assert t == 3600 * (t / 3600) + r;
    assert r == 60 * (r / 60) + r % 60;
  }

  /** `hours = seconds / 3600`, `minutes = (seconds % 3600) / 60`,
      `remainingSeconds = seconds % 60`, with Kotlin's truncating operators. */
  function Split(total: int): Clock {
    Clock(Quot(total, 3600), Quot(Rem(total, 3600), 60), Rem(total, 60))
  }

  /** The parts always add back up to the input; for a non-negative input
      the minutes and seconds are below sixty, and for a negative one every
      part is at most zero. */
  lemma SplitParts(total: int)
    ensures TotalSeconds(Split(total)) == total
    ensures total >= 0 ==> Normal(Split(total))
    ensures total < 0 ==> var c := Split(total);
      c.hours <= 0 && -60 < c.minutes <= 0 && -60 < c.seconds <= 0
  {
    var c := Split(total);
    if total >= 0 {
      SplitNonNegative(total);
    } else {
      SplitNonNegative(-total);
      assert c == Clock(-((-total) / 3600), -(((-total) % 3600) / 60), -((-total) % 60));
    }
  }

  /** A normal clock is the only one with its total, so `Split` is the
      inverse of `TotalSeconds` on normal clocks. */
  lemma {:induction false} SplitUnique(c: Clock)
    requires Normal(c)
    ensures Split(TotalSeconds(c)) == c
  {
    var d := Split(TotalSeconds(c));
    SixtiesUnique(60 * c.hours + c.minutes, c.seconds, 60 * d.hours + d.minutes, d.seconds);
    SixtiesUnique(c.hours, c.minutes, d.hours, d.minutes);
  }

  /** A number has one quotient and remainder by sixty. */
  lemma SixtiesUnique(q1: int, r1: int, q2: int, r2: int)
    requires 0 <= r1 < 60 && 0 <= r2 < 60
    requires 60 * q1 + r1 == 60 * q2 + r2
    ensures q1 == q2 && r1 == r2
  {
  }

  /** `String.format("%02d:%02d:%02d", hours, minutes, remainingSeconds)`. */
  function FormatClock(c: Clock): string {
    FormatPad2(c.hours) + ":" + FormatPad2(c.minutes) + ":" + FormatPad2(c.seconds)
  }

  /** The arithmetic half of `getVideoDuration`: milliseconds to `HH:MM:SS`. */
  function FormatDuration(ms: Long): string {
    FormatClock(Split(Quot(ms, 1000)))
  }

  /** The three fields of an `H:MM:SS` text: the two-character minute and
      second fields sit at fixed offsets from the end, the hour field takes
      whatever is in front of them. */
  datatype ClockFields = ClockFields(hours: string, minutes: string, seconds: string)

  function Fields(s: string): Option<ClockFields> {
    if |s| < 8 || s[|s| - 6] != ':' || s[|s| - 3] != ':' then
      None
    else
      Some(ClockFields(s[..|s| - 6], s[|s| - 5..|s| - 3], s[|s| - 2..]))
  }

  /** Reads a clock text back into its three fields. */
  function ParseClock(s: string): Option<Clock> {
    match Fields(s)
    case None => None
    case Some(f) =>
      if AllDigits(f.hours) && AllDigits(f.minutes) && AllDigits(f.seconds)
         && Value(f.minutes) < 60 && Value(f.seconds) < 60
      then
        Some(Clock(Value(f.hours), Value(f.minutes), Value(f.seconds)))
      else
        None
  }

  /** Formatting a normal clock and reading it back gives the same clock. */
  lemma ParseFormatClock(c: Clock)
    requires Normal(c)
    ensures ParseClock(FormatClock(c)) == Some(c)
  {
    FormatPad2Value(c.hours);
    FormatPad2Value(c.minutes);
    FormatPad2Value(c.seconds);
    FormatPad2Width(c.hours);
    FormatPad2Width(c.minutes);
    FormatPad2Width(c.seconds);
    ParseClockFields(FormatPad2(c.hours), FormatPad2(c.minutes), FormatPad2(c.seconds));
  }

  /** `ParseClock` finds the three fields of any `H:MM:SS` text. */
  lemma ParseClockFields(h: string, m: string, sec: string)
    requires |h| >= 2 && |m| == 2 && |sec| == 2
    requires AllDigits(h) && AllDigits(m) && AllDigits(sec)
    requires Value(m) < 60 && Value(sec) < 60
    ensures ParseClock(h + ":" + m + ":" + sec) == Some(Clock(Value(h), Value(m), Value(sec)))
  {
    FieldsOfText(h, m, sec);
  }

  lemma FieldsOfText(h: string, m: string, sec: string)
    requires |h| >= 2 && |m| == 2 && |sec| == 2
    ensures Fields(h + ":" + m + ":" + sec) == Some(ClockFields(h, m, sec))
  {
    var s := h + ":" + m + ":" + sec;
    var n := |h|;
    assert |s| == n + 6;
    assert s[n] == ':' && s[n + 3] == ':';
    assert s[..n] == h;
    assert s[n + 1..n + 3] == m;
    assert s[n + 4..] == sec;
  }

  /** Round trip: a non-negative duration prints as the whole seconds it
      contains. */
  lemma ParseFormatDuration(ms: Long)
    requires ms >= 0
    ensures ParseClock(FormatDuration(ms)) == Some(Split(ms / 1000))
    ensures TotalSeconds(ParseClock(FormatDuration(ms)).value) == ms / 1000
  {
    assert Quot(ms, 1000) == ms / 1000;
    SplitParts(ms / 1000);
    ParseFormatClock(Split(ms / 1000));
  }

  /** Sub-second parts are truncated, and nothing else is lost: two
      non-negative durations print alike exactly when they contain the same
      number of whole seconds. */
  lemma SameTextSameSeconds(a: Long, b: Long)
    requires a >= 0 && b >= 0
    ensures FormatDuration(a) == FormatDuration(b) <==> a / 1000 == b / 1000
  {
    if FormatDuration(a) == FormatDuration(b) {
      ParseFormatDuration(a);
      ParseFormatDuration(b);
    }
  }

  /** Every field is padded to at least two characters, so a non-negative
      duration prints as exactly eight characters (`HH:MM:SS`) while it is
      under 100 hours (360,000,000 ms) and longer from then on. */
  lemma FormatDurationLength(ms: Long)
    requires ms >= 0
    ensures |FormatDuration(ms)| >= 8
    ensures |FormatDuration(ms)| == 8 <==> ms < 360_000_000
  {
    var c := Split(ms / 1000);
    SplitParts(ms / 1000);
    FormatPad2Width(c.hours);
    FormatPad2Width(c.minutes);
    FormatPad2Width(c.seconds);
    assert c.hours == ms / 1000 / 3600;
    assert |FormatDuration(ms)| == |FormatPad2(c.hours)| + 6;
  }

  /** A non-negative duration prints as the normal clock that holds its
      whole seconds. */
  lemma FormatDurationOfClock(ms: Long, c: Clock)
    requires Normal(c)
    requires ms >= 0 && ms / 1000 == TotalSeconds(c)
    ensures FormatDuration(ms) == FormatClock(c)
  {
    assert Quot(ms, 1000) == ms / 1000;
    SplitUnique(c);
  }

  /** The non-negative durations with `k` whole seconds are exactly the
      one-second window `[k * 1000, k * 1000 + 999]` (truncation also maps
      `-999 .. -1` to 0). */
  lemma SecondWindow(ms: Long, k: nat)
    requires ms >= 0
    ensures Quot(ms, 1000) == k <==> k * 1000 <= ms < k * 1000 + 1000
  {
  }

  /** Below 100 hours a normal clock prints as exactly `HH:MM:SS`: two
      digits per field, most significant first, separated by colons. */
  lemma FormatClockDigits(c: Clock)
    requires Normal(c) && c.hours < 100
    ensures FormatClock(c) ==
      [DigitChar(c.hours / 10), DigitChar(c.hours % 10), ':',
       DigitChar(c.minutes / 10), DigitChar(c.minutes % 10), ':',
       DigitChar(c.seconds / 10), DigitChar(c.seconds % 10)]
  {
    PadDigits(c.hours);
    PadDigits(c.minutes);
    PadDigits(c.seconds);
    JoinPairs(FormatPad2(c.hours), FormatPad2(c.minutes), FormatPad2(c.seconds));
  }

  lemma JoinPairs(h: string, m: string, sec: string)
    requires |h| == 2 && |m| == 2 && |sec| == 2
    ensures h + ":" + m + ":" + sec == [h[0], h[1], ':', m[0], m[1], ':', sec[0], sec[1]]
  {
  }

  lemma PadDigits(n: nat)
    requires n < 100
    ensures FormatPad2(n) == [DigitChar(n / 10), DigitChar(n % 10)]
  {
    if n < 10 {
      FormatPad2OneDigit(n);
    } else {
      FormatPad2TwoDigits(n);
    }
  }

  /** Anything under a second prints as `00:00:00`. */
  lemma FormatDurationUnderSecond(ms: Long)
    requires 0 <= ms < 1000
    ensures FormatDuration(ms) == "00:00:00"
  {
    UnderSecondIsZeroClock(ms);
    ClockTextZero();
  }

  /** Under a second there are no whole seconds to split. */
  lemma UnderSecondIsZeroClock(ms: Long)
    requires 0 <= ms < 1000
    ensures Split(Quot(ms, 1000)) == Clock(0, 0, 0)
  {
    assert Quot(ms, 1000) == 0;
    SplitUnique(Clock(0, 0, 0));
  }

  /** The zero clock prints as `00:00:00`. */
  lemma ClockTextZero()
    ensures FormatClock(Clock(0, 0, 0)) == "00:00:00"
  {
    FormatClockDigits(Clock(0, 0, 0));
  }
}
