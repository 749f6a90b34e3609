/** `getVideoDuration` (MainActivity.kt): the metadata duration in
    milliseconds, defaulted when absent, cut to whole seconds and printed as
    `HH:MM:SS`. */
module VideoDuration {
  import opened Wrappers
  import opened Decimal
  import opened Kotlin
  import opened ClockText

  /** `toLong()` threw on the metadata text. */
  datatype DurationError = NumberFormat(text: string)

  /** What the elvis operator substitutes for a missing duration. */
  const DefaultDuration: Long := 0

  /** `getVideoDuration` with the metadata lookup as its input: `None` is the
      `null` that `extractMetadata` returns when the key is absent, and the
      elvis operator turns it into the default; text that `toLong()` rejects
      makes the call throw instead of defaulting. */
  function GetVideoDuration(metadata: Option<string>): (r: Result<string, DurationError>)
    ensures r.Failure? <==> metadata.Some? && ParseLong(metadata.value).None?
    ensures r.Failure? ==> r.error == NumberFormat(metadata.value)
    ensures metadata.None? ==> r == Success("00:00:00")
    ensures metadata.Some? && ParseLong(metadata.value).Some? ==>
              r == Success(FormatDuration(ParseLong(metadata.value).value))
  {
    match metadata
    case None =>
      FormatDurationUnderSecond(DefaultDuration);
      Success(FormatDuration(DefaultDuration))
    case Some(text) =>
      match ParseLong(text)
      case None => Failure(NumberFormat(text))
      case Some(ms) => Success(FormatDuration(ms))
  }

  /** A duration the metadata reports prints as the whole seconds it holds;
      the text read back gives those seconds. */
  lemma GetVideoDurationRoundTrip(text: string, ms: Long)
    requires ParseLong(text) == Some(ms) && ms >= 0
    ensures GetVideoDuration(Some(text)).Success?
    ensures ParseClock(GetVideoDuration(Some(text)).value) == Some(Split(ms / 1000))
    ensures TotalSeconds(Split(ms / 1000)) == ms / 1000
  {
    ParseFormatDuration(ms);
  }

  /** A missing duration prints as `00:00:00`. */
  lemma MissingDurationText()
    ensures GetVideoDuration(None) == Success("00:00:00")
  {
  }

  /** A missing duration reads exactly like a reported duration of zero. */
  lemma MissingDurationIsZero()
    ensures GetVideoDuration(None) == GetVideoDuration(Some("0"))
  {
    assert ParseLong("0") == Some(0) by {
      assert Magnitude("0") == "0";
    }
  }

  /** The default applies to a missing value only: an empty value, a lone
      sign, or a character that is not a digit (a unit suffix, a decimal
      point) makes the call throw. */
  lemma NonNumericDurationThrows(text: string)
    requires || |text| == 0
             || (|text| == 1 && IsSign(text[0]))
             || !(IsDigit(text[0]) || IsSign(text[0]))
             || (exists i :: 0 < i < |text| && !IsDigit(text[i]))
    ensures GetVideoDuration(Some(text)) == Failure(NumberFormat(text))
  {
  }
}
