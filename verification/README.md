# LocalImage media listing and video duration, in Dafny

LocalImage is an Android app. It lists the device's images and videos from
the platform media store and shows each video's length as `HH:MM:SS`. Its logic
lives in `MainActivity.kt`. This project models the two functions that hold
that logic, together with the app's data model:

- `getMediaList` runs two media-store queries, images first and videos
  second. It turns every cursor row into a `MediaItem` tagged `IMAGE` or
  `VIDEO` and concatenates the two groups.
- `getVideoDuration` reads the duration metadata in milliseconds. A missing
  value becomes 0. The value is cut to whole seconds, split into hours,
  minutes and seconds, and printed with `"%02d:%02d:%02d"`.

Modules:

- `Wrappers`: `Option` and `Result`.
- `Decimal`: ASCII digit strings, their value, and the shortest decimal
  text of a natural number.
- `Kotlin`: the Kotlin/JVM primitives the code relies on:
  - the 64-bit `Long` range;
  - `/` and `%` on `Long`, which truncate toward zero (`Quot`, `Rem`);
  - `String.toLong()` (`ParseLong`), with `None` standing for the
    `NumberFormatException`;
  - `"%02d"` (`FormatPad2`).
- `ClockText`: the seconds-to-clock arithmetic (`Split`) and the clock text
  (`FormatClock`, `FormatDuration`). `ParseClock` reads the text back. It is
  the inverse used to state that formatting loses nothing but the
  sub-second part.
- `VideoDuration`: `getVideoDuration`, with the metadata lookup as its input.
- `DurationExamples`: worked examples of the clock text. Each one covers
  the whole one-second window of durations that print alike.
- `MediaStore`: `MediaType`, `MediaItem`, cursor rows, one cursor loop
  (`ReadCursor`), the whole function (`MediaList`), and a loop-by-loop method
  (`GetMediaList`) that is proved equal to it.

The model follows the code in several places where the behaviour is easy to
misread:

- The default duration applies only when `extractMetadata` returns `null`.
  The elvis operator catches `null`, not exceptions. Text that `toLong()`
  rejects, such as an empty string, `"12.5"` or `"abc"`, makes the call throw.
  In the model this is `Failure(NumberFormat(text))`.
- `toLong()` accepts a leading minus sign. Kotlin's `/` and `%` truncate
  toward zero, so a negative duration prints every field with its own sign:
  `-3661000` ms becomes `"-1:-1:-1"`. The model keeps negative durations
  rather than excluding them.
- `MediaItem`'s `displayName` and `data` are non-null `String`s. A row whose
  `getString` returns `null` therefore makes the constructor throw. This
  ends the whole `getMediaList` call at the first such row, with images
  checked before videos. The model returns `Failure(NullColumn(kind, row))`
  for it. `getLong` on a `NULL` column yields 0, so `id` and `dateAdded`
  are plain `Long`s.
- A query that returns no cursor (`?.use` on `null`) contributes no items
  and is not an error.

## Model

| member | source | states |
|---|---|---|
| MediaStore.MediaType | app/src/main/java/com/example/featherandroidtasks/MainActivity.kt:260-263 | The two kinds of media, `IMAGE` and `VIDEO`. |
| MediaStore.MediaItem | app/src/main/java/com/example/featherandroidtasks/MainActivity.kt:251-257 | The five fields of a media item: `id`, `displayName`, `dateAdded`, `data` and `type`. |
| MediaStore.Row | app/src/main/java/com/example/featherandroidtasks/MainActivity.kt:91-96 | One cursor row of the four-column projection. The two string columns may be `null`. |
| MediaStore.ToItem | app/src/main/java/com/example/featherandroidtasks/MainActivity.kt:117-123 | The item built from a complete row carries that row's four columns unchanged and the given kind. |
| MediaStore.Rows | app/src/main/java/com/example/featherandroidtasks/MainActivity.kt:101-107 | A query that returns no cursor yields no rows. `MediaStore.NullCursorContributesNothing` states what that means for the list. |
| MediaStore.ReadCursor | app/src/main/java/com/example/featherandroidtasks/MainActivity.kt:116-125 | One cursor loop succeeds exactly when every row has both string columns. On success it yields one item per row, in cursor order, each tagged with the collection's kind and carrying that row's columns. Otherwise it fails at a row with a null column, and every row before that one is complete. |
| MediaStore.MediaList | app/src/main/java/com/example/featherandroidtasks/MainActivity.kt:88-158 | Success exactly when both collections' rows are complete. The list has N+M items: positions below N are IMAGE and carry the image rows in order, and the rest are VIDEO and carry the video rows in order. An image failure points at an incomplete image row. A video failure implies all image rows were complete. |
| MediaStore.GetMediaList | app/src/main/java/com/example/featherandroidtasks/MainActivity.kt:88-158 | The imperative version fills one list: the image loop adds the image items, then the video loop appends the video items. Each loop stops the call at the first null column. It returns exactly what `MediaList` specifies. |
| MediaStore.AddCursorItems | app/src/main/java/com/example/featherandroidtasks/MainActivity.kt:116-125 | One cursor loop appends to the list it is given. If the rows read successfully, it returns that list followed by their items. Otherwise it returns the same failure `ReadCursor` gives. The source writes this loop twice, at lines 116-125 and 144-153. |
| MediaStore.PrefixFailure | app/src/main/java/com/example/featherandroidtasks/MainActivity.kt:116-125 | Once the loop fails on a prefix of the rows, later rows do not change the outcome. The failure stays at the same row. |
| MediaStore.ItemFromColumns | app/src/main/java/com/example/featherandroidtasks/MainActivity.kt:251-257 | A `MediaItem` is determined by its four columns and its type. Rebuilding it from them gives the same item. |
| MediaStore.NullCursorContributesNothing | app/src/main/java/com/example/featherandroidtasks/MainActivity.kt:101-135 | When one query returns no cursor, the result is what the other collection alone produces. |
| MediaStore.ContributionsIndependent | app/src/main/java/com/example/featherandroidtasks/MainActivity.kt:101-157 | The list is the images-only result followed by the videos-only result. Neither query's rows affect the other's items. |
| MediaStore.KindsPartitionList | app/src/main/java/com/example/featherandroidtasks/MainActivity.kt:116-157 | Keeping only IMAGE items gives exactly the first N items, and keeping only VIDEO items gives exactly the rest. There are as many of each as the corresponding query returned rows. |
| MediaStore.ListColumnsAreQueryRows | app/src/main/java/com/example/featherandroidtasks/MainActivity.kt:116-157 | The columns of the list, item by item, are exactly the image rows followed by the video rows. Nothing is dropped, reordered or altered. |
| Kotlin.Quot | app/src/main/java/com/example/featherandroidtasks/MainActivity.kt:220-224 | Kotlin `Long` division truncates toward zero. For a non-negative dividend the quotient is the largest q with q*b <= a. For a negative dividend it is the smallest q with a <= q*b. |
| Kotlin.Rem | app/src/main/java/com/example/featherandroidtasks/MainActivity.kt:224-225 | `a == Quot(a,b)*b + r`. The remainder is in [0, b) for a non-negative dividend and in (-b, 0] for a negative one. |
| Kotlin.ParseLong | app/src/main/java/com/example/featherandroidtasks/MainActivity.kt:216 | `toLong()` accepts only an optional sign followed by at least one digit. The sign of the text decides the sign of the value. Anything else throws. The value read is stated by `Kotlin.ParseLongNumeral`. |
| Kotlin.ParseLongNumeral | app/src/main/java/com/example/featherandroidtasks/MainActivity.kt:216 | On any numeral (an optional `+` or `-`, then one or more digits, leading zeros allowed), `toLong()` gives the signed value of the digits when it is within the `Long` range, and throws otherwise. Together with `ParseLong`'s shape clauses, this fixes the result on every string. |
| Kotlin.ParseLongPlus | app/src/main/java/com/example/featherandroidtasks/MainActivity.kt:216 | A leading `+` is accepted: `"+5"` reads as 5. |
| Kotlin.ParseLongLeadingZeros | app/src/main/java/com/example/featherandroidtasks/MainActivity.kt:216 | Leading zeros are accepted and ignored: `"007"` reads as 7. |
| Kotlin.ParseShowLong | app/src/main/java/com/example/featherandroidtasks/MainActivity.kt:216 | Every `Long` is read back from its canonical decimal text (`Long.toString()`). |
| Kotlin.ParseLongOutOfRange | app/src/main/java/com/example/featherandroidtasks/MainActivity.kt:216 | A digit string above the `Long` maximum throws. |
| Kotlin.FormatPad2 | app/src/main/java/com/example/featherandroidtasks/MainActivity.kt:227 | The `%02d` conversion of one field. Its properties are stated by `Kotlin.FormatPad2Width` and `Kotlin.FormatPad2Value`: the width, the sign, padding only up to the width, and the digits reading back as the value. |
| Kotlin.FormatPad2Width | app/src/main/java/com/example/featherandroidtasks/MainActivity.kt:227 | `%02d` prints at least two characters. For a non-negative value it prints exactly two when the value is below 100. A negative value starts with `-`. Zeros are added only to fill the width: a value of 10 or more starts with a non-zero digit, and so does the magnitude after a minus sign. With `Kotlin.FormatPad2Value` this fixes the text exactly. |
| Kotlin.FormatPad2Value | app/src/main/java/com/example/featherandroidtasks/MainActivity.kt:227 | The printed field is all digits, after the sign for a negative value, and reads back as the value printed. |
| Decimal.Show | app/src/main/java/com/example/featherandroidtasks/MainActivity.kt:227 | The decimal text of a number is non-empty and all digits, has no leading zero, and reads back as the number. |
| Decimal.ShowLength | app/src/main/java/com/example/featherandroidtasks/MainActivity.kt:227 | The decimal text has at most k digits exactly when the number is below 10^k. |
| ClockText.Split | app/src/main/java/com/example/featherandroidtasks/MainActivity.kt:223-225 | `hours`, `minutes` and `remainingSeconds` computed from the seconds with truncating `/` and `%`. Its properties are stated by `ClockText.SplitParts` and `ClockText.SplitUnique`. |
| ClockText.SplitParts | app/src/main/java/com/example/featherandroidtasks/MainActivity.kt:223-225 | `hours*3600 + minutes*60 + remainingSeconds` equals the input seconds. For a non-negative input, minutes and seconds are in [0, 60). For a negative input, every part is at most 0 and above -60 where it is a remainder. |
| ClockText.SplitUnique | app/src/main/java/com/example/featherandroidtasks/MainActivity.kt:223-225 | A clock with minutes and seconds below sixty is the only one with its total, so the split of its total gives it back. |
| ClockText.FormatClock | app/src/main/java/com/example/featherandroidtasks/MainActivity.kt:227 | `String.format("%02d:%02d:%02d", ...)`. `ClockText.ParseFormatClock` states that the text of a normal clock reads back as that clock, and `ClockText.FormatClockDigits` states the digits below 100 hours. |
| ClockText.FormatDuration | app/src/main/java/com/example/featherandroidtasks/MainActivity.kt:219-227 | Milliseconds to clock text. Its properties are stated by `ClockText.ParseFormatDuration`, `ClockText.SameTextSameSeconds` and `ClockText.FormatDurationLength`. |
| ClockText.ParseFormatClock | app/src/main/java/com/example/featherandroidtasks/MainActivity.kt:227 | Reading the `%02d:%02d:%02d` text of such a clock gives back the same hours, minutes and seconds. |
| ClockText.ParseFormatDuration | app/src/main/java/com/example/featherandroidtasks/MainActivity.kt:220-227 | For a non-negative duration, reading the text back gives the split of `ms / 1000`, which totals exactly the whole seconds of the duration. |
| ClockText.SameTextSameSeconds | app/src/main/java/com/example/featherandroidtasks/MainActivity.kt:220-227 | Two non-negative durations print the same text exactly when they contain the same number of whole seconds. Only the sub-second part is lost. |
| ClockText.FormatDurationOfClock | app/src/main/java/com/example/featherandroidtasks/MainActivity.kt:220-227 | A non-negative duration whose whole seconds `ms / 1000` equal a normal clock's total prints as that clock. |
| ClockText.SecondWindow | app/src/main/java/com/example/featherandroidtasks/MainActivity.kt:220 | The non-negative durations that truncate to `k` whole seconds are exactly those in `[k*1000, k*1000 + 999]`. |
| ClockText.FormatDurationLength | app/src/main/java/com/example/featherandroidtasks/MainActivity.kt:227 | A non-negative duration prints at least 8 characters. It prints exactly 8 when it is under 100 hours (360,000,000 ms) and more from then on. |
| ClockText.FormatClockDigits | app/src/main/java/com/example/featherandroidtasks/MainActivity.kt:227 | Below 100 hours the text is two digits per field, most significant first, separated by colons at positions 2 and 5. |
| ClockText.FormatDurationUnderSecond | app/src/main/java/com/example/featherandroidtasks/MainActivity.kt:220-227 | Anything in [0, 999] ms prints `00:00:00`. |
| VideoDuration.GetVideoDuration | app/src/main/java/com/example/featherandroidtasks/MainActivity.kt:211-228 | The call fails exactly when the metadata is present and `toLong()` rejects it, and the failure carries that text. Missing metadata gives `00:00:00`. Otherwise the result is the clock text of the value `toLong()` reads. |
| VideoDuration.GetVideoDurationRoundTrip | app/src/main/java/com/example/featherandroidtasks/MainActivity.kt:215-227 | A reported non-negative duration prints a text that reads back as its whole seconds. |
| VideoDuration.MissingDurationText | app/src/main/java/com/example/featherandroidtasks/MainActivity.kt:215-227 | Missing metadata prints `00:00:00`. |
| VideoDuration.MissingDurationIsZero | app/src/main/java/com/example/featherandroidtasks/MainActivity.kt:216 | Missing metadata behaves exactly like a reported `"0"`. |
| VideoDuration.NonNumericDurationThrows | app/src/main/java/com/example/featherandroidtasks/MainActivity.kt:216 | Empty text, a lone sign, a bad first character, or any later non-digit throws and is not replaced by the default. |
| DurationExamples.FormatDurationHourMinuteSecond | app/src/main/java/com/example/featherandroidtasks/MainActivity.kt:220-227 | Every duration in [3,661,000, 3,661,999] ms prints `01:01:01`. |
| DurationExamples.FormatDurationFiftyNineSeconds | app/src/main/java/com/example/featherandroidtasks/MainActivity.kt:220-227 | Every duration in [59,000, 59,999] ms prints `00:00:59`. |
| DurationExamples.FormatDurationHundredHours | app/src/main/java/com/example/featherandroidtasks/MainActivity.kt:220-227 | At 100 hours the hour field grows to three characters: `100:00:00`. |
| DurationExamples.FormatDurationNegative | app/src/main/java/com/example/featherandroidtasks/MainActivity.kt:220-227 | Every duration in [-3,661,999, -3,661,000] ms prints `-1:-1:-1`, because truncation toward zero gives -3661 seconds and every field keeps its own minus sign. |

## Left out

- The runtime permission request and its alternate screen (lines 53-83) are UI and platform state.
- The Compose UI (lines 160-208 and 231-248) is rendering only. So is `VideoPlayer`.
- `contentResolver.query` and the cursor I/O are left out. Each query is an input: `None` for a null cursor, otherwise the rows the cursor yields in order.
- `getColumnIndexOrThrow` is left out. It cannot fail for the four standard columns the projection itself requests.
- The `DATE_ADDED DESC` sort order is performed by the platform. The model takes rows in whatever order the cursor gives them and does not check that order.
- `MediaMetadataRetriever` setup, `setDataSource` and `release` are platform I/O. Their one result, the duration text or `null`, is the input of `GetVideoDuration`. An exception from `setDataSource` on a bad URI is not modelled.
- Kotlin.ParseLong: accepts ASCII digits only. `java.lang.Long.parseLong` also accepts other Unicode decimal digits.
- Kotlin.FormatPad2: ignores the default locale of `String.format`, which can change the digit characters.
- The exact exception types are collapsed into one failure value per cause: `NumberFormatException` becomes `NumberFormat`, and the null-parameter exception becomes `NullColumn`.
