# text-to-calendar core, modelled in Dafny

text-to-calendar turns free text into a calendar event. The project models its two decision-making pieces.

- **The extraction endpoint** (`POST` in `app/api/extract-event/route.ts`) works in a fixed order:
  1. It checks that the request has a text.
  2. It picks the credential: the caller's key, or else the environment's default.
  3. It asks a language model for the event.
  4. It reads the model's reply as JSON.
  5. If that fails, it retries on the span that `/\{[\s\S]*\}/` matches.

  Each failure becomes an error response with a fixed status and message.
- **The event generator** (`generateICSFile` in `lib/ics-generator.ts`) turns an event record into the configuration it hands to the calendar library. It:
  - rejects records without a title or date;
  - splits `YYYY-MM-DD` and `HH:mm` into numbers with `Number`;
  - builds the start with `new Date(year, month - 1, day, hour, minute)`;
  - sets the end one hour later;
  - leaves out an empty location or description.

Modules:

| module | file | what it holds |
|---|---|---|
| `Wrappers` | `wrappers.dfy` | `Option`, `Result` |
| `JsString` | `js_string.dfy` | JavaScript truthiness, `trim`, `split` on one character with `join` as its inverse, and the first and last position of a character, which locate the regular-expression match |
| `JsNumber` | `js_number.dfy` | `Number(s)` for decimal-digit strings, and zero-padded decimal rendering |
| `JsDate` | `js_date.dfy` | the ECMA-262 `Date` pieces used: DayFromYear, MakeDay, TimeClip, the two-digit-year rule of the constructor, a wall-clock reading with its encoding, and the one-hour carry |
| `IcsGenerator` | `ics_generator.dfy` | `generateICSFile` up to the event configuration |
| `ExtractEvent` | `extract_event.dfy` | the `POST` handler, the brace-span recovery and the response statuses |

How the model represents things:

- **Instants.** An instant is a count of minutes since 1970-01-01 00:00 on the local wall clock. The UTC offset is zero and there is no daylight saving. `Invalid` stands for a `Date` whose time value is `NaN`. Every `Date` the code builds has zero seconds and milliseconds, so minutes are exact.
- **Out-of-range components.** Months and days outside their range carry over as in ECMA-262's MakeDay.
- **`JSON.parse`** is a parameter `parse: string -> Option<J>`. `None` means "throws".
- **The completion call** is a parameter `backend(key, text)`. It yields either an exception or the first choice's content.

Three behaviours of the code worth stating plainly, since the model follows them:

- There is no date-parse error. An unparsable date gives an invalid `Date` (`Invalid`), which is passed on to the calendar library.
- The handler forwards whatever `JSON.parse` returns, with no check of the five fields.
- A failing completion call lands in the outer `catch` and gives the generic 500 "Error al procesar el texto" (`Internal`). A reply without content gives its own 500 (`EmptyReply`).

## Model

| member | source | states |
|---|---|---|
| IcsGenerator.GenerateEvent | lib/ics-generator.ts:11-44 | fails exactly when `title` or `startDate` is null or empty, and then always with the "título y fecha" error, so the "Fecha de inicio no válida" branch is never taken; on success the summary is the title unchanged, the start is the instant read from the date and time, and the end is valid exactly when the start is valid and start + 60 minutes is within TimeClip's range, and then exactly 60 minutes after the start; location and description are present exactly when non-empty and then unchanged |
| IcsGenerator.OptionalText | lib/ics-generator.ts:40-41 | the `undefined` fallback keeps a non-empty text unchanged and drops a null or empty one |
| IcsGenerator.StartInstant | lib/ics-generator.ts:21-31 | a valid start needs a number in each of the three date fields and lies within TimeClip's range; a date without `-`, or a truthy time without `:`, gives an invalid `Date` because destructuring leaves the missing field `undefined`; with a truthy time, a valid start also needs a number in both the hour and the minute piece, so `xx:30` gives an invalid `Date`; its value for numeral pieces is given by StartOfNumerals |
| IcsGenerator.StartOfNumerals | lib/ics-generator.ts:24-26 | for any date with three numeral `-` pieces and time with two numeral `:` pieces, padded or not (`2025-3-5`, `9:05`), the start is `new Date(year, month - 1, day, hour, minute)` of their values |
| IcsGenerator.DateFields | lib/ics-generator.ts:24 | the year is `Number` of the first `-` piece; there is a month index exactly when a second piece exists and is a number, and it is one less than that number; there is a day exactly when a third piece exists and is a number, and it is that number; without a `-` there is neither month nor day |
| IcsGenerator.TimeFields | lib/ics-generator.ts:25 | the hour is `Number` of the first `:` piece; there is a minute exactly when a second piece exists and is a number, and it is that number; without a `:` there is no minute |
| IcsGenerator.Component | lib/ics-generator.ts:24-25 | a destructured piece is a number exactly when it exists and is all digits after trimming, and that number is not negative |
| IcsGenerator.MonthIndex | lib/ics-generator.ts:26 | `month - 1` is a number exactly when `month` is, and adding one gives `month` back |
| IcsGenerator.StartOfFormatted | lib/ics-generator.ts:22-26 | a `YYYY-MM-DD` date and `HH:mm` time of a valid reading (year from 100 on) start at exactly that reading's time value, or `NaN` beyond TimeClip's range |
| IcsGenerator.StartOfFormattedFields | lib/ics-generator.ts:24-26 | formatted text hands its year, day, hour and minute to `new Date` unchanged and the written month as `month - 1`, with seconds zero |
| IcsGenerator.DateFieldsOfFormatted | lib/ics-generator.ts:24 | splitting a formatted date on `-` and mapping `Number` gives its year, month index and day |
| IcsGenerator.TimeFieldsOfFormatted | lib/ics-generator.ts:25 | splitting a formatted time on `:` and mapping `Number` gives its hour and minute, and a formatted time is truthy |
| IcsGenerator.SplitFormatted | lib/ics-generator.ts:24-25 | a formatted date splits on `-` into its three zero-padded fields, and a formatted time splits on `:` into its two |
| IcsGenerator.MidnightWithoutTime | lib/ics-generator.ts:27-31 | with `startTime` null or empty the start is midnight on the date, the same instant as time `00:00` |
| IcsGenerator.ExtraComponentsIgnored | lib/ics-generator.ts:24-25 | date components after the third and time components after the second do not change the start, so `09:30:15` starts at 09:30 |
| IcsGenerator.DateFieldsOfPrefix | lib/ics-generator.ts:24 | destructuring `[year, month, day]` reads only the first three pieces of the date |
| IcsGenerator.TimeFieldsOfPrefix | lib/ics-generator.ts:25 | destructuring `[hour, minute]` reads only the first two pieces of the time |
| IcsGenerator.EndIsNextHour | lib/ics-generator.ts:43 | read on the wall clock, the end is the reading one hour after the start, carried across day, month and year, and it is the only valid reading with that time value |
| IcsGenerator.GenerateOfFormatted | lib/ics-generator.ts:15-44 | a titled event with a formatted date and time produces that reading's start, an end one hour later, and no location or description |
| IcsGenerator.NewYearRollover | lib/ics-generator.ts:37-44 | an event on 2025-12-31 at 23:30 ends on 2026-01-01 at 00:30 |
| JsDate.NewDateOfReading | lib/ics-generator.ts:26 | `new Date(year, month - 1, day, hour, minute)` with a month from 1 to 12 and a year outside 0..99 is the reading's time value, or `NaN` beyond TimeClip's range |
| JsDate.NewDateInRange | lib/ics-generator.ts:26 | the constructor with a month index inside 0..11 is the day number times 1440 plus the minutes of the day, under TimeClip |
| JsDate.NewDate | lib/ics-generator.ts:26-30 | the constructor yields a valid `Date` only when every argument is a number, and then within TimeClip's range |
| JsDate.ConstructorYear | lib/ics-generator.ts:26-30 | the constructor changes a year exactly when it is from 0 to 99, and then to the year of the 1900s ending in it |
| JsDate.NewDateTwoDigitYear | lib/ics-generator.ts:26-30 | a year from 0 to 99 builds the same `Date` as 1900 plus it, and the mapped year is not mapped again |
| JsDate.MakeDay | lib/ics-generator.ts:26-30 | a month index in 0..11 adds no carry, one in 12..23 is that month of the next year, and one in -12..-1 (month 0 gives -1) is that month of the previous year |
| JsDate.MakeDayYearCarry | lib/ics-generator.ts:26-30 | twelve months more is the same month of the next year |
| JsDate.MakeDayPlain | lib/ics-generator.ts:26 | MakeDay with a month index inside 0..11 adds no year carry |
| JsDate.TimeClip | lib/ics-generator.ts:26 | a time value is kept exactly when it is within 8.64e15 ms of the epoch, and is `NaN` otherwise |
| JsDate.AddMinutes | lib/ics-generator.ts:43 | `new Date(start.getTime() + 60 * 60 * 1000)` is `NaN` for a `NaN` start, and otherwise the start plus 60 minutes under TimeClip |
| JsDate.NextHourEncode | lib/ics-generator.ts:43 | the next-hour reading is valid and its time value is exactly 60 minutes later |
| JsDate.EncodeInjective | lib/ics-generator.ts:43 | distinct valid readings have distinct time values |
| JsDate.DayFromYearStep | lib/ics-generator.ts:26 | the day number of January 1 advances by the length of the year |
| JsDate.DayFromYearMonotone | lib/ics-generator.ts:26 | later years start on later days |
| JsDate.DayNumberNextMonth | lib/ics-generator.ts:43 | the day after the last of a month, other than December, is the first of the next month |
| JsDate.DayNumberNextYear | lib/ics-generator.ts:43 | the day after December 31 is January 1 of the next year |
| JsNumber.ToNumber | lib/ics-generator.ts:24-25 | `Number` gives a value exactly for a string that is all decimal digits after trimming, and that value is not negative |
| JsNumber.ToNumberPadded | lib/ics-generator.ts:24-25 | `Number` of a zero-padded decimal rendering is the number rendered |
| JsNumber.ToNumberIgnoresSpace | lib/ics-generator.ts:24-25 | whitespace around a component does not change `Number` of it |
| JsNumber.DecimalShowNat | lib/ics-generator.ts:24-25 | the decimal value of a rendering is the number rendered |
| JsString.Split | lib/ics-generator.ts:24-25 | `split` on one character gives at least one piece, and no piece holds the separator |
| JsString.JoinSplit | lib/ics-generator.ts:24-25 | joining the pieces of a split with the separator gives the original text back |
| JsString.SplitJoin | lib/ics-generator.ts:24-25 | splitting a join of separator-free pieces gives the pieces back |
| JsString.Trim | app/api/extract-event/route.ts:66 | `trim` removes exactly the leading and trailing whitespace: the result is a slice of the input, everything outside it is whitespace, and its ends are not |
| JsString.TrimUnique | app/api/extract-event/route.ts:66 | any slice with whitespace outside and non-whitespace ends is the trim |
| JsString.TrimIdempotent | app/api/extract-event/route.ts:66 | trimming twice is trimming once |
| JsString.TrimPadded | app/api/extract-event/route.ts:66 | whitespace added around a text does not change its trim |
| JsString.IndexOf | app/api/extract-event/route.ts:77 | the first position of a character, or none exactly when it does not occur |
| JsString.LastIndexOf | app/api/extract-event/route.ts:77 | the last position of a character, or none exactly when it does not occur |
| JsString.Truthy | app/api/extract-event/route.ts:8-56 | a nullable string is falsy exactly when it is `null`/`undefined` or empty |
| ExtractEvent.Handle | app/api/extract-event/route.ts:4-100 | a missing text gives the 400 text error; text with no credential gives the 400 credential error; a call that throws, or a body that cannot be read, gives the 500 internal error; a reply with null or empty content gives the 500 empty-reply error; content that neither parses nor recovers gives the 500 unstructured error; each of these holds in both directions; an extracted value is what parsing made of the non-empty reply to the one call made with the chosen credential and the text |
| ExtractEvent.ErrorStatus | app/api/extract-event/route.ts:8-98 | the missing text and missing credential errors are 400, all others 500 |
| ExtractEvent.ErrorMessage | app/api/extract-event/route.ts:9-96 | every error message is non-empty; that the messages tell the errors apart is ErrorMessageInjective |
| ExtractEvent.ErrorMessageInjective | app/api/extract-event/route.ts:9-96 | different errors carry different messages |
| ExtractEvent.Status | app/api/extract-event/route.ts:92-98 | a response is 200 exactly when it carries the extracted value |
| ExtractEvent.Credential | app/api/extract-event/route.ts:13-20 | the caller's key when non-empty, else the environment's key when non-empty, else none |
| ExtractEvent.BraceSpan | app/api/extract-event/route.ts:77 | `/\{[\s\S]*\}/` matches from the leftmost `{` that has a later `}` to the last `}`: the span is a match, no match starts earlier or runs longer from the same start, and there is no span exactly when nothing matches |
| ExtractEvent.JsonMatch | app/api/extract-event/route.ts:77-78 | the recovered text begins with `{` and ends with `}`, and exists exactly when some `{` precedes some `}` |
| ExtractEvent.ParseReply | app/api/extract-event/route.ts:63-90 | a successful direct parse of the trimmed reply is returned unchanged; when it fails, the result is exactly what the parser makes of the span from the leftmost `{` to the last `}`, and nothing when there is no such span |
| ExtractEvent.MatchInProse | app/api/extract-event/route.ts:74-79 | an object between prose that opens no brace before it and closes none after it is recovered whole |
| ExtractEvent.ProseWrappedReply | app/api/extract-event/route.ts:63-90 | when the whole reply does not parse, a prose-wrapped object yields exactly what the parser makes of that object |
| ExtractEvent.JsonMatchIgnoresTrim | app/api/extract-event/route.ts:66-77 | the recovered text is the same whether or not the reply is trimmed first |
| ExtractEvent.JsonMatchOfSlice | app/api/extract-event/route.ts:77 | cutting away brace-free ends of a string does not change the match |
| ExtractEvent.NoCallWithoutTextOrKey | app/api/extract-event/route.ts:6-20 | without a body, a text or a credential the handler answers with an error that does not depend on the completion call |
| ExtractEvent.OneCallWithChosenKey | app/api/extract-event/route.ts:13-54 | the answer depends on the completion call only through its outcome for the chosen credential and the request's text |
| ExtractEvent.ExtractedExactly | app/api/extract-event/route.ts:54-92 | a request with a text and a credential succeeds exactly when the reply has content that parses directly or after recovery |

## Left out

- The rendering of the configuration as iCalendar text by the `ical-generator` library, and the calendar's name (lib/ics-generator.ts:12, 46-48). That library is not part of this model.
- Time zones and daylight saving. Local time has a zero offset, so `new Date(...)` in local time and its UTC time value coincide.
- ECMA-262's MakeDay also returns `NaN` when the year is beyond what a time value can hold, even if later minutes would bring it back. The model computes the day number and relies on TimeClip alone.
- `Number` of anything other than decimal digits (signs, fractions, exponents, hexadecimal, `Infinity`) is modelled as `None`. That is the same as `NaN` for the date built from it, except that such literals really have values, which the model does not compute.
- JsNumber.ToNumber: does not promise a value for the numeric forms above. This is weaker than JavaScript, which gives them values.
- `text` and `apiKey` of another JSON type than string (a number, an object) are not modelled. The model takes both as optional strings.
- The five `EventData` fields of another JSON type than string or `null` (a number, an object) are not modelled, although the handler forwards whatever the parser returns. For example, a numeric `startDate` passes the truthiness test and then `split` throws a `TypeError`, which the model cannot express. `EventData` takes every field as an optional string.
- A request body that is not JSON, or is `null`, is a single `None` answered with `Internal`. The model does not tell apart the ways `req.json()` or destructuring can throw.
- The OpenAI client, model name, prompt and temperature (app/api/extract-event/route.ts:23-52). These are replaced by the `backend` parameter. An empty `choices` array also throws into the outer `catch`, so it is one of its `Threw` outcomes.
- The internals of `JSON.parse`. It is the `parse` parameter.
- `console.error` logging (app/api/extract-event/route.ts:68-73, 84, 94). It has no effect on the response.
- The full text of the error responses. Each error is a tag, with its message in `ErrorMessage` and its status in `ErrorStatus`.
- app/page.tsx is not part of this model. It is the user interface.
- Splitting into many pieces in general (a split of a concatenation) is not stated. The model only states the split of a join of separator-free pieces and its converse.
