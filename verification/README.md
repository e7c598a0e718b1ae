# TimeUtils time arithmetic in Dafny

TimeUtils is a small single-page calculator with three tools. The unit
converter expresses an amount in one time unit as another, and breaks a number
of days down into years, months and days. The clock reader turns an `H:M` text
into minutes since midnight and prints any minute count as a zero-padded
`HH:MM`. The add-to-time calculator adds hour and minute offsets to a clock
time and reports the new time and how many midnights were crossed.

This project models the pure arithmetic behind these tools, found in
`src/App.tsx`: the `TIME_UNITS` table, `parseTimeInput`, `formatTime`, and the
bodies of the `conversion`, `breakdown` and `timeResult` computations. It
proves properties of that model.

Modules:

- `JsRuntime` (`js_runtime.dfy`) models the JavaScript built-ins these
  computations call:
  - `Number(s)` on decimal numerals;
  - `String(n)`;
  - `padStart`, `split` and `replace` with one-character arguments;
  - the truncating `%`, `Math.floor` and `Math.round`.
- `Clock` (`clock.dfy`) models `parseTimeInput` and `formatTime`.
- `TimeAdd` (`time_add.dfy`) models the `timeResult` computation.
- `Units` (`units.dfy`) models `TIME_UNITS` and the `conversion` and
  `breakdown` computations.

Numbers are Dafny's exact `real`s. Minute counts that are printed are `int`s.
JavaScript's `null`, `undefined` and non-finite numbers become `None`. The
add-to-time result keeps the placeholder `—` as text (`TimeAdd.Dash`). The
converter's placeholder `—` is its missing result: `Units.Convert` gives
`result == None` where the page shows the dash.

Parsing works on reals, as the source does. The range check of
`parseTimeInput` bounds each part but does not require it to be whole.
`"7.5:0"` is therefore accepted as 450 minutes. Likewise an offset of `"0.5"`
hours is worth thirty minutes. A whole minute count prints as `HH:MM`. A
fractional one has no text in the model (`TimeText` gives `None`), because
`formatTime` would then print the minute part with JavaScript's
number-to-text conversion.

## Model

| member | source | states |
|---|---|---|
| `JsRuntime.ParseNumber` | src/App.tsx:31-32 | `Number("")` is 0, and a non-empty digit string is its decimal value |
| `JsRuntime.ParseUnsigned` | src/App.tsx:31-32 | an unsigned numeral is non-negative, and a string of digits reads as its decimal value; the empty string is not a numeral |
| `JsRuntime.NumberOfZero` | src/App.tsx:32 | `Number("0")` is 0 |
| `JsRuntime.UnsignedNumeral` | src/App.tsx:31-32 | an unsigned text is read exactly when it is digits with at most one decimal point and at least one digit |
| `JsRuntime.NumberIsNumeral` | src/App.tsx:31-32 | `Number` gives a number exactly for the empty text or a numeral with an optional leading `-` or `+`; every other text is NaN |
| `JsRuntime.NonNumeral` | src/App.tsx:32-33 | a character other than a digit or a point after the first position makes the text NaN |
| `JsRuntime.NegatedNumber` | src/App.tsx:113-114 | a leading `-` negates the number that follows and keeps NaN as NaN |
| `JsRuntime.PlusNumber` | src/App.tsx:113-114 | a leading `+` reads the same as no sign |
| `JsRuntime.NegativeNumeral` | src/App.tsx:113-114 | `-` followed by digits is minus their decimal value |
| `JsRuntime.MinusTwo` | src/App.tsx:276 | the preset offset `"-2"` reads as -2 |
| `JsRuntime.OneAndAHalf` | src/App.tsx:72 | `Number("1.5")` is 1.5 |
| `JsRuntime.NumberOfDecimal` | src/App.tsx:72 | a numeral with one decimal point is its whole part plus its fraction |
| `JsRuntime.ReplaceFirst` | src/App.tsx:72 | `replace(',', '.')` keeps the length; without a comma it changes nothing; otherwise only the first comma becomes a point |
| `JsRuntime.Split` | src/App.tsx:30 | `split` always gives at least one piece, and gives the whole input as its only piece when the separator does not occur |
| `JsRuntime.FirstPiece` | src/App.tsx:30 | the first piece of `split` is the text before the first separator, or all of it when there is none |
| `JsRuntime.JoinSplit` | src/App.tsx:30 | the pieces of `split`, joined again with the separator, give back the input |
| `JsRuntime.SplitJoin` | src/App.tsx:30 | splitting undoes joining when no piece holds the separator |
| `JsRuntime.SplitAppendKeepsTwo` | src/App.tsx:30 | appending `:` and more text to an input that has a `:` leaves its first two pieces unchanged |
| `JsRuntime.PadStart` | src/App.tsx:42 | `padStart` keeps the text as a suffix, fills the front with the fill character, and reaches the width |
| `JsRuntime.NatToString` | src/App.tsx:42 | `String(n)` is a digit string without a leading zero that reads back as `n` |
| `JsRuntime.Rem` | src/App.tsx:39-41 | JavaScript `%` leaves a remainder with the sign of the dividend, below the divisor in size |
| `JsRuntime.Floor` | src/App.tsx:40 | `Math.floor(x)` is the greatest integer not above `x` |
| `JsRuntime.Round` | src/App.tsx:99 | `Math.round(x)` is the integer within half of `x`, halves going up |
| `JsRuntime.FloorOfQuotient` | src/App.tsx:40 | `Math.floor(a / b)` for a positive `b` equals the integer quotient |
| `Clock.ClockText` | src/App.tsx:42 | for an hour and minute below 100 the text is five characters `DD:DD` whose digit pairs read back as the hour and the minute |
| `Clock.TwoDigits` | src/App.tsx:42 | `String(n).padStart(2, '0')` below 100 is two digits that read back as `n` |
| `Clock.TwoDigitsChars` | src/App.tsx:42 | below 100 the padded text is the tens digit, or a `0`, followed by the units digit |
| `Clock.DigitPairValue` | src/App.tsx:42 | the two-digit numeral of `a` and `b` is worth `10 * a + b` |
| `Clock.HoursField` | src/App.tsx:30-31 | the hours are `Number` of the text before the first `:`, or of the whole input when it has none |
| `Clock.MinutesField` | src/App.tsx:30-32 | without a `:` the minutes are `Number(undefined)`, not a number; otherwise they are `Number` of the text from the first `:` up to the next `:` or the end |
| `Clock.ClockMinutes` | src/App.tsx:33-35 | a value comes back exactly when both numbers exist and lie within 0..23 and 0..59; it is `hours * 60 + minutes` and lies in [0, 1440) |
| `Clock.WholeClockMinutes` | src/App.tsx:33-35 | whole hours and minutes pass the checks exactly when they form a time of day, giving `hours * 60 + minutes` |
| `Clock.ParseTimeInput` | src/App.tsx:29-36 | a value comes back exactly when both parts are numbers within 0..23 and 0..59; it is `hours * 60 + minutes` and lies in [0, 1440) |
| `Clock.ParseOfFields` | src/App.tsx:33-35 | for whole parts, the input is accepted exactly when they form a time of day, giving `hours * 60 + minutes` |
| `Clock.ParseDigitFields` | src/App.tsx:30-32 | the parts of `h:m` with digit strings `h` and `m` are their decimal values |
| `Clock.FieldsOfText` | src/App.tsx:30-32 | the parts of `h:m` are `Number(h)` and `Number(m)` when neither holds a `:` |
| `Clock.SameFieldsSameParse` | src/App.tsx:33-35 | the outcome depends on nothing but the two numbers read |
| `Clock.SamePartsSameParse` | src/App.tsx:30-35 | inputs whose first two `:`-pieces agree parse alike |
| `Clock.ParseIgnoresTail` | src/App.tsx:30 | a third `:`-piece and anything after it are ignored |
| `Clock.RejectMissingMinutes` | src/App.tsx:30-33 | an input without `:` is rejected, since its minutes are `Number(undefined)` |
| `Clock.RejectNonNumericMinutes` | src/App.tsx:30-33 | a minutes part that is not a number rejects the input |
| `Clock.RejectLetterMinutes` | src/App.tsx:30-33 | `"8:x"` is rejected |
| `Clock.RejectHour24` | src/App.tsx:34 | hour 24 is out of range |
| `Clock.ParseFractionalHour` | src/App.tsx:31-35 | an hour written with a decimal fraction and minutes `0` is accepted as that many hours times 60 whenever its whole part is below 23, so `"7.5:0"` is 450 minutes |
| `Clock.AcceptedHour` | src/App.tsx:33-35 | an hour part within 0..23, fractional or not, with minute part 0 is accepted as the hour times 60 |
| `Clock.ParseBareColon` | src/App.tsx:30-35 | empty parts read as 0, so `":"` is midnight |
| `Clock.ParseDefaultTime` | src/App.tsx:50 | the default base time `"08:30"` is 510 minutes |
| `Clock.ParseThreeParts` | src/App.tsx:30 | `"08:30:99"` is 510 minutes |
| `Clock.ParseUnpadded` | src/App.tsx:29-35 | the unpadded `"8:5"` is 485 minutes |
| `Clock.FormatTime` | src/App.tsx:38-43 | the double truncating remainder, floor and remainder select the hour and minute of `t` modulo a day, which are printed padded |
| `Clock.WrapIntoDay` | src/App.tsx:39 | `((t % 1440) + 1440) % 1440` is the non-negative remainder of `t` by 1440, negative `t` included |
| `Clock.FormatTimeShape` | src/App.tsx:39-42 | every printed time is five characters `DD:DD`, with hours below 24 and minutes below 60, that together are `t` modulo a day |
| `Clock.FormatTimePeriodic` | src/App.tsx:39 | `formatTime(t + 1440 * k) == formatTime(t)` for every integer `t` and `k` |
| `Clock.FormatPadded` | src/App.tsx:39-42 | the minute count of a time of day prints as its padded hours and minutes |
| `Clock.FormatUnpadded` | src/App.tsx:38-43 | 485 minutes print as `"08:05"` |
| `Clock.ParseClockText` | src/App.tsx:29-36 | a padded `HH:MM` of a time of day parses to its minute count |
| `Clock.ParseFormatRoundTrip` | src/App.tsx:29-43 | printing `t` and parsing the text gives `t` modulo a day |
| `Clock.FormatParseRoundTrip` | src/App.tsx:29-43 | parsing a padded `HH:MM` gives a whole count that prints back as the same text |
| `TimeAdd.OffsetOf` | src/App.tsx:113-116 | an offset that is not a number counts as 0, and a number counts as itself |
| `TimeAdd.TotalMinutes` | src/App.tsx:117 | whole base and offsets give a whole total; offsets that are all non-negative never move the total before the base, and offsets that are all non-positive never move it after the base |
| `TimeAdd.AddToTime` | src/App.tsx:108-120 | the result is valid exactly when the base parses; otherwise it is the placeholder with day offset 0, whatever the offsets; when valid it is the advance by base plus offsets |
| `TimeAdd.DayOffset` | src/App.tsx:118 | `Math.floor(total / 1440)` is the day whose 1440 minutes contain `total` |
| `TimeAdd.DayOffsetUnique` | src/App.tsx:118 | that day is the only one bracketing `total` |
| `TimeAdd.TimeText` | src/App.tsx:119 | a text is given exactly for whole minute counts |
| `TimeAdd.Advance` | src/App.tsx:117-119 | the result is valid and its day offset brackets the total |
| `TimeAdd.AdvanceReadsBack` | src/App.tsx:117-119 | for a whole total, the displayed time parses back to `total - dayOffset * 1440` |
| `TimeAdd.AdvanceFullDay` | src/App.tsx:117-119 | 24 more hours leave the time unchanged and move the day offset by one |
| `TimeAdd.TimeTextNextDay` | src/App.tsx:119 | the time text repeats every 1440 minutes, fractional totals included |
| `TimeAdd.WholeNextDay` | src/App.tsx:119 | a whole minute count and the count one day later print the same time |
| `TimeAdd.NonNumericOffsetIsZero` | src/App.tsx:113-117 | a non-numeric hour offset counts as 0 |
| `TimeAdd.NonNumericMinutesIsZero` | src/App.tsx:114-117 | a non-numeric minute offset counts as 0 |
| `TimeAdd.DigitOffset` | src/App.tsx:113-116 | an offset of plain digits counts as its decimal value |
| `TimeAdd.SameOffsetSameResult` | src/App.tsx:117 | only the combined offset `hours * 60 + minutes` matters |
| `TimeAdd.HalfHourOffset` | src/App.tsx:113-117 | `"0.5"` hours have the same effect as `"30"` minutes |
| `TimeAdd.DefaultTotal` | src/App.tsx:50-52 | the default inputs lead to minute 615 |
| `TimeAdd.DefaultInputs` | src/App.tsx:50-52 | `08:30` plus 1 hour 45 minutes is `10:15` on the same day |
| `Units.TwelveMonths` | src/App.tsx:25-26 | twelve average months of 30.436875 days make the average year of 365.2425 days |
| `Units.UnitSeconds` | src/App.tsx:19-27 | every unit is at least one second long |
| `Units.TableRows` | src/App.tsx:19-27 | looking any unit up in `TIME_UNITS` finds its row, with the length in seconds written out independently |
| `Units.TableIdsDistinct` | src/App.tsx:19-27 | no unit appears twice in the table |
| `Units.Find` | src/App.tsx:76-77 | `find` returns a row exactly when some row has the id asked for; the row returned has that id and is the first such row of the table |
| `Units.FindFrom` | src/App.tsx:76-77 | the row found is the first row at or after the start position with the id; `None` means no row from the start position has the id |
| `Units.Through` | src/App.tsx:81-83 | the seconds are `value * from.seconds` and `result * to.seconds == seconds` |
| `Units.ThroughUnits` | src/App.tsx:81-82 | converting through the rows of two units keeps the number read, is valid, and its result times the target unit's seconds is the input times the source unit's seconds |
| `Units.Scale` | src/App.tsx:76-83 | a finite number is converted through the rows of both units |
| `Units.ScaleSeconds` | src/App.tsx:81-82 | a finite number gives a valid conversion whose result times the target unit's seconds is the input times the source unit's seconds |
| `Units.Convert` | src/App.tsx:71-84 | the number read is `Number` of the input with its first comma made a point; the conversion is valid exactly when that is a number; otherwise there is no result and the seconds are 0 |
| `Units.ScaleIdentity` | src/App.tsx:81-82 | converting a unit into itself gives the same amount |
| `Units.ConvertIdentity` | src/App.tsx:71-84 | a readable input converted into its own unit comes back as the number read |
| `Units.ScaleCompose` | src/App.tsx:81-82 | converting through an intermediate unit equals converting directly |
| `Units.ScaleRoundTrip` | src/App.tsx:81-82 | converting there and back returns the amount |
| `Units.ScaleToLongerUnit` | src/App.tsx:81-82 | into a unit at least as long, a non-negative amount does not grow |
| `Units.DecimalComma` | src/App.tsx:72 | `"1,5"` hours are 90 minutes |
| `Units.NotANumber` | src/App.tsx:72-75 | a non-numeric input is invalid with zero seconds |
| `Units.Abs` | src/App.tsx:92 | `Math.abs(x)` is non-negative and is `x` or `-x` |
| `Units.SplitDays` | src/App.tsx:91-99 | the sign is `-` exactly for negative input; years fit greedily, then months with `months <= 11`; days are the rounded rest with `days <= 30` |
| `Units.GreedyUnique` | src/App.tsx:95-98 | the greedy year and month bounds admit one pair only |
| `Units.SplitDaysReassembles` | src/App.tsx:92-99 | years, months and days add back up to the magnitude within half a day |
| `Units.SplitDaysNegated` | src/App.tsx:91-92 | a negative input has the parts of its magnitude and the sign `-` |
| `Units.SplitWholeYears` | src/App.tsx:93-99 | `k` average years break down as `k` years, 0 months, 0 days |
| `Units.BreakdownOf` | src/App.tsx:86-106 | a breakdown exists exactly for a valid days-to-years conversion, and it is the split of the number read |
| `Units.BreakdownYearsMatchConversion` | src/App.tsx:81-82 | the breakdown's years are the whole part of the days-to-years result's magnitude |
| `Units.ConvertedBreakdownYears` | src/App.tsx:71-106 | for readable days-to-years input, the shown breakdown's years match the converted amount |
| `Units.SplitOneCommonYear` | src/App.tsx:93-99 | 365 days are 0 years, 11 months and 30 days |
| `Units.DefaultBreakdown` | src/App.tsx:47-49 | the page's default, 365 days as years, breaks down as 0 years, 11 months and 30 days |

## Left out

- React state, hooks, rendering, the language toggle and the preset buttons (src/App.tsx:45-70 and 122 on). They are user-interface glue with no arithmetic.
- `Intl.NumberFormat` (src/App.tsx:55-69, 83). It is a locale-dependent library whose code is not visible. `Units.Convert` keeps the converted amount as a number (`Some(result)`), not as formatted text.
- src/i18n.ts is not part of this model. It holds translation tables and the library setup.
- JsRuntime.ParseNumber: it reads only an optional sign, digits and at most one decimal point, and the empty string as 0. Leading or trailing white space, hexadecimal, octal or binary prefixes (`0x`, `0o`, `0b`), exponents and `Infinity` are read by JavaScript's `Number` but are `None` here.
- IEEE-754 doubles are modelled as exact reals. Rounding in `value * from.seconds / to.seconds`, in the breakdown and in `Number` is not modelled. So the proved equalities (round trip, composition, `Units.TwelveMonths`) hold exactly here, but only approximately in the page.
- Numbers too large to be finite doubles are finite here. A numeral that JavaScript reads as `Infinity` would make an offset count as 0.
- TimeAdd.TimeText: for a fractional minute count the time text is `None`. JavaScript would print the minute part with its number-to-text conversion, which is not modelled. The day offset is still computed for such counts.
- The `!from || !to` branch of the conversion (src/App.tsx:78-80) cannot be reached, because every unit id has a row (`Units.TableRows`). `Units.Scale` marks it as unreachable.
- The `Number.isFinite(totalDays)` test of the breakdown (src/App.tsx:90) is `BreakdownOf`'s `None` case for a missing number. It cannot arise after a valid conversion.
