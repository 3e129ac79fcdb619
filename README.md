# ZPTX-Lib utilities in Dafny

A model of the duration, progress-bar and pagination helpers of the ZPTX-Lib
TypeScript utility library, with proofs of what they promise:

- `msToTime` splits a millisecond count into a `TimeObject` (days, hours,
  minutes, seconds) by floor division and remainder, or returns one running
  total when a unit selector is given (`time.dfy`, module `Time`).
- `msToTimeString` renders a `TimeObject` either as a clock (`H:MM:SS`,
  `M:SS`, or the sentinel `MORE_THAN_A_DAY`) or as a comma-separated list of
  the non-zero units with singular and plural forms (`time_string.dfy`, module
  `TimeString`). The decimal rendering (`toString`), the two-character padding
  (`padStart(2, '0')`) and the value `parseInt` reads from a run of digits are
  in `decimal.dfy`, module `Decimal`.
- `parseTimeString` exists in two variants (`parse.dfy`, module `TimeParse`).
  The one in `src/util.ts` is a character scanner with a buffer of pending
  digits. The one in `src/index.ts` is a loop over the matches of
  `/(\d+)([smhd])/g`. Each is a method with its loop, proved against a
  function that specifies it, and the two functions are proved equal on every
  string.
- `getBar` picks one of ten bars with the knob in slot
  `clamp(floor(p / 10), 0, 9)` (`bar.dfy`, module `ProgressBar`). A bar is ten
  abstract markers, with exactly one knob.
- `paginate` cuts an array, in order, into pages of a given size
  (`pagination.dfy`, module `Pagination`). It is a method with a loop that
  creates a page when its first element arrives and pushes onto it otherwise,
  proved against the predicate `IsPaging`.

`src/index.ts` repeats `msToTime`, `msToTimeString`, `getBar` and `paginate`
of `src/util.ts` with the same bodies. It lacks the `msToTimeString`
overloads, and its bar literals differ byte for byte while having the same
ten-slot shape. Those are modelled once, and the rows below
cite `src/util.ts`. The two files differ only in `parseTimeString`, and both
variants are modelled. The scanner's digit test at `src/util.ts:152` is read
as the regular expression `\d`, a single ASCII digit; the file shows the
backslash in a legacy Japanese encoding.

## Model

| member | source | states |
|---|---|---|
| Time.MsToTime | src/util.ts:46-69 | With no selector the result is a record whose hours are below 24, minutes and seconds below 60, and whose fields make up exactly the whole seconds in `ms`. With 's', 'm', 'h' or 'd' it is the single total `ms / 1000`, `ms / 60000`, `ms / 3600000` or `ms / 86400000`, floored. |
| Time.DaysTotalIsDayField | src/util.ts:53-65 | The 'd' total equals the `d` field of the record. |
| Time.BreakdownInverse | src/util.ts:50-67 | Decomposition is the inverse of `TotalSeconds`. For any record within the moduli and any sub-second remainder, decomposing its milliseconds gives that record back. |
| Time.MsToTimeExamples | src/__tests__/util.test.ts:11-31 | The test-suite values for one hour and one day hold. So do the documented values for 2 d 3 h 4 m 5 s 6 ms: the record, 2 days, 51 hours, 3064 minutes, 183845 seconds. |
| Decimal.DigitsValue | src/util.ts:155 | `parseInt` of a run of digits is its value, most significant digit first; it is 0 exactly when every digit is '0'. `NatToString` inverts it. |
| Decimal.NatToString | src/util.ts:105-109 | `toString` yields ASCII digits only. They read back as the number, form one digit exactly below 10, and have no leading zero. |
| Decimal.PadTwo | src/util.ts:107-109 | `padStart(2, '0')` keeps strings of two or more characters. It fills a shorter one with leading '0's up to length two, and the original is a suffix of the result. |
| Decimal.PadTwoValue | src/util.ts:107-109 | Padding a digit string keeps it a digit string with the same value. |
| Decimal.NatToStringInverse | src/util.ts:105-109 | A digit string without a leading zero is the rendering of its own value, so rendering is injective. |
| TimeString.MsToTimeString | src/util.ts:97-128 | The simple form is the sentinel exactly when `d > 0`. The detailed form is empty exactly when every field is zero. |
| TimeString.SimpleString | src/util.ts:101-109 | The simple form is `MORE_THAN_A_DAY` if and only if there is at least one day. |
| TimeString.SimpleReadsBack | src/util.ts:105-109 | Below a day the simple form splits at ':' into digit fields. They read back as hours, minutes and seconds when hours are positive, and as minutes and seconds otherwise. |
| TimeString.SimplePadding | src/util.ts:105-109 | Below a day the simple form has three fields with hours and two without. Seconds always take at least two digits, and minutes do too after hours. Unpadded minutes take one digit exactly below ten. |
| TimeString.SimpleExamples | src/__tests__/util.test.ts:34-52 | `0:05`, `5:05`, `5:05:05` and the sentinel for the test-suite records. |
| TimeString.DropLastTwo | src/util.ts:127 | `slice(0, -2)` gives what precedes the last two characters, and "" for a string shorter than two. |
| TimeString.ClauseShape | src/util.ts:111-126 | A clause reads as the number, a space and the unit. It ends in "s" exactly when the number is not 1. |
| TimeString.DetailedString | src/util.ts:111-127 | The detailed form is the four ", "-terminated pieces of the positive fields with the last two characters cut off. It is "" if and only if the record is all zero. |
| TimeString.NonZeroClauses | src/util.ts:111-126 | There are at most four clauses, and none exactly when every field is zero. |
| TimeString.DetailedIsJoinedClauses | src/util.ts:111-127 | The detailed form is exactly the clauses of the positive fields, in the order days, hours, minutes, seconds, joined by ", " with no trailing separator. |
| TimeString.SimpleDocumentedExamples | src/util.ts:76-87 | `2:03:04`, `3:04`, `0:04` and the sentinel for the documented records. |
| TimeString.DetailedExamples | src/__tests__/util.test.ts:55-58 | `5 secs` and `5 mins, 5 secs`. |
| TimeString.DetailedHourExample | src/__tests__/util.test.ts:59-61 | `5 hrs, 5 mins, 5 secs`. |
| TimeString.DetailedSingularExample | src/__tests__/util.test.ts:62-64 | `1 hr, 1 min, 1 sec`: singular units take no "s". |
| TimeString.DetailedDayExamples | src/__tests__/util.test.ts:68-69 | `1 day` and `2 days`. |
| TimeString.DetailedFullExample | src/__tests__/util.test.ts:70-72 | `1 day, 5 hrs, 5 mins, 5 secs`. |
| TimeParse.UnitMs | src/util.ts:156-169 | 's', 'm', 'h' and 'd' are worth 1000, 60000, 3600000 and 86400000 ms. Every other character is worth 0, since the switch has no default. |
| TimeParse.ParseTimeString | src/util.ts:147-174 | The scanner loop returns the scanner specification, and also the sum over the regular-expression matches. |
| TimeParse.ParseTimeStringByMatches | src/index.ts:81-104 | The loop over matches returns the sum of `amount * unit` over all matches, and also what the scanner returns. |
| TimeParse.DigitRun | src/index.ts:82 | The greedy `\d+` takes a run of digits that cannot be extended. |
| TimeParse.Matches | src/index.ts:82-83 | Every match ends in a unit letter. |
| TimeParse.ScanIsMatchSum | src/util.ts:150-172 | Whatever digits are pending, the scanner adds what the matches of the pending digits plus the rest add. |
| TimeParse.VariantsAgree | src/index.ts:82-103 | Both `parseTimeString` variants return the same total on every string. |
| TimeParse.SingleToken | src/util.ts:152-170 | A number followed by a non-digit counts for the number times the unit's milliseconds, and the rest is parsed afresh. |
| TimeParse.ParseAdditive | src/util.ts:150-172 | When the first part is empty or ends in a non-digit, the parse of a concatenation is the sum of the parses of its parts. Repeated units therefore accumulate. |
| TimeParse.TokenParses | src/util.ts:156-169 | `"<n><unit>"` parses to `n` times the unit's milliseconds. |
| TimeParse.CompactParses | src/util.ts:156-169 | `"<d>d<h>h<m>m<s>s"` parses to the record's whole seconds times 1000. |
| TimeParse.DecomposeRenderParse | src/util.ts:147-174 | Decomposing `ms` with `msToTime`, writing the record compactly and parsing gives `ms` floored to the whole second: a value at most `ms` and less than `ms` plus 1000. |
| TimeParse.ParseSingleUnitExamples | src/__tests__/util.test.ts:77-82 | `1s`, `1m`, `1h` and `1d` parse to 1000, 60000, 3600000 and 86400000. |
| TimeParse.ParseMixedUnitExamples | src/__tests__/util.test.ts:84-87 | `1h1m1s` parses to 3661000 and `2d3h4m5s` to 183845000. |
| TimeParse.ParseRepeatedUnitExamples | src/__tests__/util.test.ts:89-96 | `2s2s` parses to 4000, `3m3m3m` to 540000, and `0`, which has no unit, to 0. |
| TimeParse.ParseSequenceExample | src/util.ts:135-137 | `1m1s` parses to 61000. |
| TimeParse.ParseSpacedExample | src/util.ts:138-140 | `1h 1m 1s` parses to 3661000. |
| TimeParse.ParseAmidWordsExample | src/util.ts:141-143 | `foo 1s bar` parses to 1000: other words count for nothing. |
| ProgressBar.BarAt | src/util.ts:216-227 | Bar `k` of the table has ten slots, and the knob in slot `k` only. |
| ProgressBar.GetBar | src/util.ts:215-232 | Ten slots. Below 10 the knob is in slot 0 and from 90 on in slot 9. In between it is in slot `j` exactly when `10 j <= progress < 10 j + 10`. |
| ProgressBar.OneKnob | src/util.ts:216-231 | Every bar has exactly one knob. |
| ProgressBar.KnobMonotone | src/util.ts:228-231 | More progress never moves the knob back. |
| ProgressBar.BarEnds | src/__tests__/util.test.ts:119-178 | 9, 5 and 0 give the same bar; 100, 99 and 90 give the same bar; 10 and 19 give the same bar, which differs from the bar for 9. |
| Pagination.Paginate | src/util.ts:244-252 | The result is a paging of `arr`: `ceil(n / size)` pages, page `j` holding the elements from `j * size` up to the next multiple of `size` or the end. |
| Pagination.StartPage | src/util.ts:247-249 | An element whose index is a multiple of `size` comes when its page does not exist yet. Creating the page with that element keeps the paging of the prefix. |
| Pagination.ExtendPage | src/util.ts:247-249 | Any other element's page is the last one. Pushing onto it keeps the paging of the prefix. |
| Pagination.PageCountStep | src/util.ts:247 | The page count is the ceiling of `n / size`. It grows by one exactly when `n` is a multiple of `size`. |
| Pagination.PagesConcatenate | src/util.ts:246-251 | Laid end to end, the pages give back the array, in order. |
| Pagination.PageSizes | src/util.ts:246-251 | There are `ceil(|arr| / size)` pages, and none exactly for the empty array. Every page but the last is full, and the last holds between 1 and `size` elements. |
| Pagination.PaginateExamples | src/__tests__/util.test.ts:191-219 | The test-suite pagings of 9 elements by 5, 4 elements by 3, and the empty array. |
| Pagination.PaginateEvenExamples | src/__tests__/util.test.ts:182-207 | The test-suite pagings of 10 elements by 5 and 5 elements by 3. |
| Pagination.PaginateDocumentedExample | src/util.ts:236-238 | `[1, 2, 3, 4, 5]` by 2 gives `[[1, 2], [3, 4], [5]]`. |

## Left out

- `roundTo` (`src/util.ts:189-202`): it works through floating-point `toFixed`, `parseFloat` and `Math.round`.
- `getJSONResponse` (`src/util.ts:255-261`): it reads an asynchronous stream and calls `JSON.parse`, a foreign parser.
- `getAbsoluteFileURL` (`src/util.ts:272-275`): a thin wrapper over Node's `path` and `url` modules.
- `jest.config.ts` and `types/index.d.ts` are not part of this model. They hold build configuration and type declarations with no logic; the `TimeObject` shape is mirrored as a datatype.
- Time.MsToTime: the count is an exact non-negative integer. Negative or fractional milliseconds, where JavaScript's `%` gives negative remainders, are not modelled. Nor are counts of 2^53 or more, where floating-point division stops being exact.
- Decimal.NatToString: numbers are exact integers below 2^53, hence below 1e21. The exponential form `toString` gives from 1e21 on ("1e+21") is not modelled.
- TimeString.MsToTimeString: fields are non-negative integers. Negative or fractional fields are not modelled.
- TimeParse.ParseTimeString: numbers are unbounded integers. `parseInt` precision loss on very long digit runs, and floating-point overflow of the total, are not modelled.
- TimeParse.ParseTimeStringByMatches: `matchAll` is modelled by its leftmost-match result for this one pattern, not by a general regular-expression engine.
- ProgressBar.GetBar: progress is a real number. NaN, which the source maps to slot 0, is not modelled. Nor are Infinity, which selects bar 9, and -Infinity, which selects bar 0. The emoji glyphs are abstracted to knob and track markers.
- Pagination.Paginate: the page size is a positive whole number. A fractional size, which leaves holes in the result, and a zero size are not modelled. Arrays are modelled as sequences, so aliasing of the pages is not captured.
