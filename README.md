# Daily-note dates and log redaction of the Reflect MCP server, in Dafny

This project models two small cores of the Reflect notes MCP server:

- **date-utils.js** decides which time zone governs daily-note dates (`resolveTimeZone`). It also builds the function that returns the date string of the daily note a whole number of days away from a reference instant (`createDailyNoteFormatter` and its closure `formatDailyNoteDate`).
- **server.js** has the helpers that keep secrets and note contents out of the logs:
  - `maskIdentifier` hides all but the last four characters of the graph id;
  - `isPlainObject` and `sanitizeArgs` copy a tool call's arguments with credentials and user content replaced by `<redacted>`.

## Modules

The project has seven modules, one per file.

- `Wrappers` (wrappers.dfy) holds `Option` and `Result`.
- `Calendar` (calendar.dfy) is the day arithmetic of ECMA-262 section 21.4.1:
  - it covers `DayFromYear`, `YearFromTime`, `MonthFromTime`, `DateFromTime`, `MakeDay`, `MakeDate` and the time-value range;
  - it adds a calendar-rule definition of "k days later" (`NextDay`, `PrevDay`, `AddDays`) that does not use day numbers;
  - it proves that the two agree.
- `Intl` (intl.dfy) models the host's `Intl.DateTimeFormat` as a `Host` value:
  - the system zone;
  - which zones a formatter accepts;
  - the rejection message;
  - the time-zone database as a day-number function;
  - `formatToParts`.

  The module also gives the `en-CA` parts that the `createFormatter` options produce (numeric year, 2-digit month, 2-digit day). It shows how `format` joins those parts, and how `Array.prototype.find` and `Number` read them back.
- `DateUtils` (date_utils.dfy) holds:
  - `resolveTimeZone`;
  - `createDailyNoteFormatter`;
  - the closure as written: fields extracted in the zone → `Date.UTC(year, month - 1, day + offsetDays)` → `new Date` → `format` with the same zone-bound formatter;
  - a corrected closure, which gives the local date shifted by whole calendar days.
- `DateUtilsExamples` (date_utils_examples.dfy) is a host with fixed-offset zones. It contains the cases of tests/date-utils.test.js and the two inputs where the closure as written departs from what it is meant to do.
- `Redaction` (redaction.dfy) has `maskIdentifier`, and `sanitizeArgs` in two forms:
  - a function `Sanitize` that says what the result is;
  - the method `SanitizeArgs`, which runs the `map` and the `reduce` as loops and is proved equal to `Sanitize`.
- `RedactionExamples` (redaction_examples.dfy) holds concrete masks and a concrete redacted argument object.

## Modelling choices

**Host.** The host's facilities are the fields of the `Host` datatype: total functions the model does not look inside. `RendersEnCa(host)` states what the formatter of date-utils.js:3-8 does with the `en-CA` locale: for every zone it accepts, `formatToParts` gives year, `-`, month, `-`, day of the local date. The lemmas about formatted strings assume it. The example host shows that the assumption can be met.

**Time.** Time values are integers of milliseconds in the range of ECMA-262 section 21.4.1.31. `Date.UTC` with integer arguments is `MakeDay` and `MakeDate`, years 0 to 99 read as 1900 to 1999, and `TimeClip`. Dafny's `/` on `int` is the floor division that `Day(t)` uses.

**Redaction.** `toLowerCase` is modelled exactly as far as the sensitive-key tests can observe it. Only the letters A to Z and the Kelvin sign (U+212A) lower-case to ASCII letters. Every other character can neither make nor break a match of `token`, `secret`, `text`, `content`, `reminder`, `subject` or `description`. That includes U+0130, whose lower case is `i` followed by a combining dot.

**Objects.** An object is its prototype and its own enumerable string-keyed properties, in the order `Object.entries` lists them. The accumulator `{}` inherits the `__proto__` accessor from `Object.prototype`, so `acc['__proto__'] = v` sets the prototype:
- an object or `null` becomes the prototype;
- any other value is ignored;
- no property is created, except once the prototype is `null`.

`Put` models exactly this. Consequently a plain input with a `__proto__` own property and an object value comes out without that key and is no longer plain (`SanitizeObject`).

**Layout and locale.** The options at date-utils.js:3-8 ask for a numeric year and a 2-digit month and day. The order of the fields and the separators come from the locale passed to `Intl.DateTimeFormat` (date-utils.js:3, 44-45), so the output depends on that locale's data. The model keeps the locale as a parameter of every host function, and states the `en-CA` layout as an assumption. Even with `en-CA` the year is not padded: `Intl` shows years below 1000 with fewer digits, and years before 1 CE as years of the era. `EnCaStringIsIsoDate` proves the four-digit `YYYY-MM-DD` form only for years 1000 to 9999.

## Model

| member | source | states |
|---|---|---|
| Calendar.MakeDay | date-utils.js:57 | `MakeDay` of ECMA-262 section 21.4.1.28 on integers, month overflow carried into the year; `MakeDayIsAddDays` states what it computes for a valid date shifted by k days |
| Calendar.DayFromYearStep | date-utils.js:57 | the first days of consecutive years are 366 days apart in a leap year and 365 otherwise |
| Calendar.YearFromDay | date-utils.js:57 | the year found for a day number is the one that contains it: it starts on or before that day, and the next year starts after it |
| Calendar.MonthOf | date-utils.js:57 | a day of the year lies in a month 1 to 12, between that month's first and last day |
| Calendar.CivilFromDay | date-utils.js:57 | every day number decodes to a valid calendar date whose day number is that day number |
| Calendar.CivilDayRoundTrip | date-utils.js:57 | encoding a valid date as a day number and decoding it gives the same date back |
| Calendar.DayFromCivilInjective | date-utils.js:57 | distinct valid dates have distinct day numbers |
| Calendar.NextDayIsSuccessor | date-utils.js:57 | the day after a date by the calendar's rules (month ends, year ends, 29 February) is the date of the next day number |
| Calendar.PrevDayIsPredecessor | date-utils.js:57 | the day before a date by the calendar's rules is the date of the previous day number |
| Calendar.AddDaysNumber | date-utils.js:57 | k days later (or earlier, for negative k) by the calendar's rules is exactly k day numbers later |
| Calendar.MakeDayIsAddDays | date-utils.js:57 | the day `Date.UTC` computes for `day + k` is the date k calendar days later |
| Intl.ExtractFields | date-utils.js:48-55 | the three `find` and `Number` calls and the finiteness test; `ExtractEnCaParts` proves it recovers every formatted date of the common era, `FindNone` and `FindAt` what `find` gives |
| Intl.FindNone | date-utils.js:49-51 | `find` gives `undefined` exactly when no part has the type |
| Intl.FindAt | date-utils.js:49-51 | `find` gives the value of the first part of the type |
| Intl.DecimalDigits | date-utils.js:5 | the numeric rendering of a natural number is a non-empty digit string that `Number` reads back as that number |
| Intl.Pad2Digits | date-utils.js:6-7 | the 2-digit rendering of 0 to 99 is two digits that read back as the number |
| Intl.JoinEnCaParts | date-utils.js:58 | `format` of a date is the concatenation of its `formatToParts` values: year, `-`, month, `-`, day |
| Intl.ExtractEnCaParts | date-utils.js:48-55 | reading the year, month and day parts back with `find` and `Number` gives the formatted date of the common era |
| Intl.EnCaStringIsIsoDate | date-utils.js:3-8 | for years 1000 to 9999 the output is `YYYY-MM-DD` and its digit groups are the year, month and day |
| DateUtils.FallbackTimeZone | date-utils.js:11 | the fallback is the host's default zone, or `UTC` when the host reports none, and it is never empty |
| DateUtils.ResolveTimeZone | date-utils.js:10-42 | it falls back exactly when a non-empty zone was requested and the host rejects it; an error is recorded exactly on fallback; the effective zone is the requested one or the fallback |
| DateUtils.ResolveWithoutRequest | date-utils.js:13-21 | an absent or empty request uses the fallback zone, is not a fallback and records neither request nor error |
| DateUtils.ResolveAcceptedZone | date-utils.js:23-31 | an accepted zone is used as requested, with no fallback and no error |
| DateUtils.ResolveRejectedZone | date-utils.js:32-41 | a rejected zone falls back, keeps the request and carries the host's error |
| DateUtils.EffectiveZoneUsable | date-utils.js:10-42 | when the host accepts its own fallback zone, every resolution gives a usable zone |
| DateUtils.CreateDailyNoteFormatter | date-utils.js:44-45 | construction succeeds exactly when the host accepts zone and locale; otherwise it throws the host's `RangeError` |
| DateUtils.DateUtc | date-utils.js:57 | `Date.UTC` on integers, followed by `new Date`; `FormatRendersUtcMidnightInZone` and `FormatShiftsTwoDigitYears` state what it does to the extracted fields |
| DateUtils.FormatDailyNoteDate | date-utils.js:47-58 | the closure as written; specified by `FormatOutcomes`, `FormatRendersUtcMidnightInZone`, `FormatShiftsTwoDigitYears` and `AsWrittenIsCalendarShiftInUtc` |
| DateUtils.TimeClip | date-utils.js:57 | `new Date(t)` holds a time value exactly when t is within 8.64e15 ms of the epoch, and then that value |
| DateUtils.FormatOutcomes | date-utils.js:47-58 | an invalid Date throws a `RangeError`; parts without three finite fields throw the components error, and nothing else does; a result is the rendering of some valid instant by the bound formatter |
| DateUtils.LocalParts | date-utils.js:3-8 | on an `en-CA` host the parts and the formatted string show the local date in the zone |
| DateUtils.ExtractLocalDate | date-utils.js:48-55 | on an `en-CA` host, extraction recovers the local date of the reference instant, for years of the common era |
| DateUtils.FormatRendersDay | date-utils.js:57-58 | when `Date.UTC` gives midnight of day n, the result is the local date of that midnight in the formatter's zone |
| DateUtils.FormatRendersUtcMidnightInZone | date-utils.js:47-58 | on an `en-CA` host, for an accepted zone and a local year from 100 on, the closure as written returns the zone's local date of UTC midnight of the shifted day (not the shifted date itself), or a `RangeError` when that midnight is out of range |
| DateUtils.FormatShiftsTwoDigitYears | date-utils.js:47-58 | as written, a local year from 1 to 99 is moved into the twentieth century before formatting |
| DateUtils.AsWrittenIsCalendarShiftInUtc | date-utils.js:47-58 | where UTC midnight of each day falls on that same local day (UTC, zones east of UTC), the closure as written returns the local date moved `offsetDays` calendar days, or a `RangeError` out of range, for years from 100 on |
| DateUtils.FormatDailyNoteDateCorrected | date-utils.js:47-58 | the corrected closure; specified by `CorrectedOutcomes`, `CorrectedRangeErrorAsWritten` and `CorrectedIsCalendarShift` |
| DateUtils.CorrectedOutcomes | date-utils.js:47-56 | the corrected closure throws the invalid-Date `RangeError` and the components error in exactly the cases the one written does |
| DateUtils.CorrectedRangeErrorAsWritten | date-utils.js:57-58 | on an `en-CA` host, from local year 100 on, the corrected closure throws the out-of-range `RangeError` exactly when the one written does |
| DateUtils.RenderShiftedIsAddDays | date-utils.js:57-58 | rendering the normalised fields renders the date `offsetDays` calendar days later, or throws a `RangeError` beyond the time-value range |
| DateUtils.CorrectedIsCalendarShift | date-utils.js:47-58 | on an `en-CA` host, for an accepted zone and a local year from 1 on, the corrected closure returns the local date of the reference instant moved `offsetDays` calendar days, or a `RangeError` when that date is out of range |
| DateUtils.CorrectedOffsetZeroIsLocalDate | date-utils.js:47-58 | with offset 0 the corrected closure returns what the bound formatter shows for the reference instant |
| DateUtils.CorrectedNextDay | date-utils.js:47-58 | with offset 1 the corrected closure returns the next calendar day, across month and year ends and leap days |
| DateUtilsExamples.FixedOffsetHostRendersEnCa | date-utils.js:3-8 | a host with fixed-offset zones renders `en-CA` as the formatter's options describe |
| DateUtilsExamples.InvalidZoneFallsBack | tests/date-utils.test.js:6-11 | `Invalid/Zone` falls back to the system zone and records the host's error |
| DateUtilsExamples.KnownAndEmptyZones | date-utils.js:13-31 | a known zone is kept; an empty request counts as no request |
| DateUtilsExamples.AsWrittenIs | date-utils.js:47-58 | on any `en-CA` host, from year 100 on, the closure as written returns the local date of midnight UTC of the shifted day |
| DateUtilsExamples.EastOfUtcMidnights | date-utils.js:57-58 | in a zone a fixed 0 to 24 hours east of UTC, UTC midnight of every day falls on that same local day |
| DateUtilsExamples.EastOfUtcAsWritten | date-utils.js:47-58 | on an `en-CA` host, in such a zone (UTC included) and for a local year from 100 on, the closure as written shifts by calendar days: month and year ends, 29 February and negative offsets included; below year 100 it does not (see `TwoDigitYearAsWritten`) |
| DateUtilsExamples.UtcToday | tests/date-utils.test.js:13-20 | the UTC formatter gives `2024-01-01` for 2024-01-01T12:00:00Z with offset 0, on every host with a correct UTC zone |
| DateUtilsExamples.UtcTomorrow | tests/date-utils.test.js:13-21 | ... and `2024-01-02` with offset 1 |
| DateUtilsExamples.NewYorkAsWritten | date-utils.js:57-58 | in `America/New_York` the local date of 2024-01-01T12:00:00Z is 2024-01-01, but the closure as written returns `2023-12-31` |
| DateUtilsExamples.NewYorkCorrected | date-utils.js:47-58 | the corrected closure returns `2024-01-01` for the same input |
| DateUtilsExamples.TwoDigitYearAsWritten | date-utils.js:57 | for the local date 15 June of the year 50 in UTC, the closure as written returns `1950-06-15` |
| DateUtilsExamples.TwoDigitYearCorrected | date-utils.js:47-58 | the corrected closure returns `50-06-15` for the same input |
| Redaction.IsPlainObject | server.js:45-47 | a non-null object whose prototype is `Object.prototype`; `SanitizeKeepsKind` and `SanitizeObject` state what that decides |
| Redaction.Stars | server.js:39-41 | `'*'.repeat(n)` is n asterisks |
| Redaction.MaskIdentifier | server.js:33-43 | the placeholder `<sin definir>` appears exactly for an unset or empty identifier; up to four characters become as many asterisks; a longer one keeps its length and last four characters, with asterisks before them |
| Redaction.MaskRevealsOnlyLengthAndTail | server.js:37-42 | identifiers of the same length and the same last four characters mask alike |
| Redaction.Lower | server.js:55 | `toLowerCase` as the key tests see it: same length, A to Z and the Kelvin sign lower-cased position by position; `LowerIdempotent` states its partner property |
| Redaction.LowerIdempotent | server.js:55 | no letter A to Z is left after lower-casing, so lower-casing twice is lower-casing once |
| Redaction.Contains | server.js:56-65 | `includes`; `ContainsIffOccurs` states what it decides |
| Redaction.ContainsIffOccurs | server.js:56-65 | `includes` holds exactly when the word occurs at some position of the string, in both directions |
| Redaction.SecretKey | server.js:55-56 | the lower-cased key contains `token` or `secret` (by `ContainsIffOccurs`, one of the words occurs at some position); `ApiTokenIsSecret`, `NoteTextIsNoSecret`, `LimitIsOrdinary` and `ProtoKeyIsOrdinary` decide it on concrete keys |
| Redaction.ContentKey | server.js:60-66 | the lower-cased key contains `text`, `content`, `reminder`, `subject` or `description` (by `ContainsIffOccurs`, one of the words occurs at some position); `NoteTextIsContent` and `LimitIsOrdinary` decide it on concrete keys |
| Redaction.Assign | server.js:57-70 | assigning a new key appends it, and assignment introduces no property other than the one assigned |
| Redaction.Put | server.js:57-70 | `acc[key] = value`, including the `__proto__` setter; what a sequence of them does is stated by `PutAllDistinctKeys` |
| Redaction.PutAll | server.js:54-72 | the `reduce` into `{}`; specified by `PutAllDistinctKeys` and `PutAllRedacted` |
| Redaction.PutAllDistinctKeys | server.js:54-72 | on distinct keys, the `reduce` into `{}` keeps every property but `__proto__`, in order; the result stays plain exactly when no `__proto__` property held an object or `null` |
| Redaction.Sanitize | server.js:49-75 | `sanitizeArgs`; specified by `SanitizeKeepsKind`, `SanitizeArray`, `SanitizeObject`, `SanitizedProperty`, `SanitizeRedacts` and `SanitizeIdempotent`, and computed by the method `SanitizeArgs` |
| Redaction.SanitizeKeepsKind | server.js:49-75 | sanitizing keeps arrays, objects, strings and object-or-null values of their kind; any value that is neither an array nor a plain object is returned as it is |
| Redaction.SanitizeArrayConcat | server.js:50-52 | the sanitized concatenation of two arrays is the concatenation of the sanitized arrays |
| Redaction.SanitizeArray | server.js:50-52 | a sanitized array keeps its length, and each element is sanitized on its own |
| Redaction.SanitizeObject | server.js:53-72 | a plain object comes out with its keys less `__proto__`, distinct and in order; the result stays plain unless `__proto__` held an object or `null` |
| Redaction.SanitizeOrdinaryObject | server.js:53-72 | a plain object without `__proto__` stays plain and keeps its keys in order, each with the value the `reduce` assigns |
| Redaction.ProtoKeyIsOrdinary | server.js:55-69 | the key `__proto__` is neither a secret nor a content key, so its value goes through the recursion |
| Redaction.SanitizedProperty | server.js:54-72 | each key other than `__proto__` comes out under its own name: the placeholder for a token or secret key; the placeholder for a string under a content key; otherwise the sanitized value. A missing key stays missing |
| Redaction.SanitizeRedacts | server.js:49-75 | when every object inside is plain, no token or secret key and no content key with a string value shows anything but `<redacted>`, at any depth |
| Redaction.SanitizeIdempotent | server.js:49-75 | sanitizing a sanitized value changes nothing |
| Redaction.SanitizeArgs | server.js:49-75 | the `map` and `reduce` loops compute exactly `Sanitize` |
| RedactionExamples.MaskExamples | server.js:33-43 | `graph-1234` masks as `******1234` and `abc` as `***`; unset and empty identifiers give `<sin definir>` |
| RedactionExamples.ApiTokenIsSecret | server.js:55-56 | `apiToken` names a token, after lower-casing |
| RedactionExamples.NoteTextIsContent | server.js:60-61 | `noteText` names content |
| RedactionExamples.LimitIsOrdinary | server.js:55-66 | `limit` names neither a secret nor content |
| RedactionExamples.SanitizeToolArguments | server.js:49-75 | `{apiToken: "abc", noteText: "hi", limit: 5}` is logged as `{apiToken: "<redacted>", noteText: "<redacted>", limit: 5}` |

## Left out

- `Intl.DateTimeFormat` stays abstract. The time-zone database, locale data, zone-name canonicalisation and `resolvedOptions` are fields of `Host`, and the model does not look inside them. Only the `en-CA` layout is stated, as the assumption `RendersEnCa`.
- The clock is not modelled. `new Date()` as the default reference instant, and the probe `format(new Date())` in `resolveTimeZone`, become parameters. The host's `accepts` does not depend on the instant probed.
- Default arguments are passed explicitly: `DefaultLocale` for `locale` and 0 for `offsetDays`.
- Non-integral and non-Date arguments of the closure are not modelled. The reference instant is an integral time value or an invalid Date.
- Locales other than `en-CA` are not modelled, and neither are numbering systems other than Latin digits. For other locales `parts` is arbitrary host data.
- Intl.StringToNumber: converts only the empty string and signed decimal digit strings. Decimal points, exponents, white space and hex forms read as NaN. `en-CA` parts never contain them.
- DateUtils.CorrectedOutcomes: does not match up the out-of-range `RangeError` for local years below 100 (the extracted year is then 0 to 99 for years 1 to 99, and the year of era for years before the common era), because the corrected closure deliberately keeps those years where the one written moves them 1900 years on; `CorrectedRangeErrorAsWritten` matches it up from year 100 on.
- Redaction.MaskIdentifier: counts lengths in characters, not UTF-16 code units. An identifier with characters outside the Basic Multilingual Plane has a different length and tail in JavaScript.
- Redaction.MaskIdentifier: takes only unset or string identifiers. The `String(value)` conversion of other values is not modelled, because the identifier comes from an environment variable.
- Values are limited to null, booleans, numbers, strings, arrays and objects. Numbers are reals, so NaN, infinities and -0 are not distinguished. `undefined`, functions, symbols and bigints are not modelled.
- Values are finite trees. A cyclic argument, on which `sanitizeArgs` would not terminate, cannot be expressed. Sharing of non-plain objects between input and output (the same reference returned) is not modelled.
- Object properties are limited to own, enumerable, string-keyed data properties, with no getters. Setters on `Object.prototype` other than `__proto__` are not modelled, and neither are sparse arrays: `map` skips holes, the model has none.
- The rest of server.js is not part of this model: the HTTP client, the MCP tool dispatch, configuration checks, logging sinks and process handling.

## Findings

| source | as written | input that shows it | evidently intended | confidence | as-written member | corrected member |
|---|---|---|---|---|---|---|
| date-utils.js:57-58 | the shifted fields become UTC midnight, which is then formatted by the formatter bound to the zone | zone `America/New_York`, 2024-01-01T12:00:00Z, offset 0: the local date is 2024-01-01 but the result is `2023-12-31` (in every zone west of UTC the result is one day early) | the local date moved `offsetDays` calendar days, here `2024-01-01` | high; not executed | DateUtilsExamples.NewYorkAsWritten | DateUtils.CorrectedIsCalendarShift |
| date-utils.js:57 | `Date.UTC` reads a year from 0 to 99 as 1900 to 1999 | zone `UTC`, 0050-06-15T12:00:00Z (time value -60574996800000), offset 0: the result is `1950-06-15` | the year kept, `50-06-15` | low: such dates hardly occur for daily notes; not executed | DateUtilsExamples.TwoDigitYearAsWritten | DateUtilsExamples.TwoDigitYearCorrected |

`DateUtils.FormatDailyNoteDateCorrected` is the corrected closure. It extracts the same fields and normalises the same `(year, month - 1, day + offsetDays)` with `MakeDay`, without the two-digit-year mapping. It then renders that date as the `en-CA` formatter renders it in UTC. `DateUtils.CorrectedIsCalendarShift` proves the intended property for every offset, on every host that renders `en-CA` as assumed, for every zone it accepts and every instant whose local year is 1 or later. The defect of the first row is confined to zones west of UTC: `DateUtils.AsWrittenIsCalendarShiftInUtc` and `DateUtilsExamples.EastOfUtcAsWritten` prove the code as written right where UTC midnight falls on its own local day. `DateUtils.FormatRendersUtcMidnightInZone` and `DateUtils.FormatShiftsTwoDigitYears` state the two departures of the code as written in general.
