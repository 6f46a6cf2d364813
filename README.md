# Mail-log TLS report: a verified model

`test.py` reads an XML mail log and writes one CSV row per `<message>`. The
row holds:

- the message's UID;
- the UTC date and time of its `ACCEPT` event;
- its recipient and sender addresses;
- its TLS delivery and TLS receipt events.

It also counts, over all messages, how many had TLS delivery, how many did
not, and how many were received with TLS, and prints those three numbers.

This project models the deterministic core between the XML parser and the
CSV writer, and proves what it computes:

- `lookup.dfy` (module `EventLookup`): the two dict comprehensions that map
  event names to texts and to `time` attributes. A later event overwrites an
  earlier one with the same name. `dict.get` with a default is modelled too.
- `civil.dfy` (module `Civil`): `datetime.utcfromtimestamp` written out in
  integer arithmetic.
  - Civil-from-days splits a day number into 400-year cycles, centuries,
    four-year groups and years: the same cycle split as CPython's
    `_ord2ymd`. `utcfromtimestamp` itself takes its fields from the C
    library's `gmtime`; both follow the proleptic Gregorian calendar.
  - Days-from-civil is the inverse.
  - The reference the conversion must agree with is the "Seconds Since the
    Epoch" formula of POSIX.1-2017, Base Definitions, section 4.16. That
    formula uses C's truncating division, modelled as `Quot`.
  - A time of day is held as the seconds since midnight, and hour, minute
    and second are derived from it.
- `isoformat.dfy` (module `IsoFormat`): three pieces.
  - The layout `strftime('%Y-%m-%d %H:%M:%S')` produces.
  - `str.split()` with no separator.
  - Readers for the ISO 8601 extended layouts `YYYY-MM-DD` and `HH:MM:SS`
    that undo the formatting.
- `decimal.dfy` (module `Decimal`): `int(s)` on ASCII digit strings,
  `str(n)`, and zero padding.
- `malresults.dfy` (module `MalResults`): the per-message row derivation,
  the exceptions that abort a run, the counting loop of `parse_malresults`
  as a method with loop invariants, the row dict and the order of the
  writer's columns, and the three summary lines as strings.
- `wrappers.dfy`: `Option` and `Result`.

Python's `None` is explicit throughout:

- A message without `<events>` has `events == None`. Iterating it raises,
  modelled as `Failure(NoEventsElement)`.
- An event's name, text and `time` are each `Option<string>`. A name of
  `None` is a legitimate dict key, and a text of `None` is stored as the
  value.
- An `ACCEPT` event without `time` makes `int(None)` raise, modelled as
  `AcceptTimeMissing`.

`ParseMalResults` returns the rows written before the pass stopped, together
with either the three counters or the error that stopped it. This matches
the script, where an exception leaves the rows already written in the file.

## Model

Several functions carry the model without a row of their own; their
contracts are the lemma rows below:

- `Civil.UtcFromTimestamp`: `UtcFromTimestampSpec` and `UtcFromTimestampInverse`.
- `Civil.CivilFromDays`: `CivilFromDaysSpec` and `CivilFromDaysInverse`.
- `IsoFormat.FormatDate`, `FormatTime` and `Strftime`: `DateLayout`, `TimeLayout`, `SplitStrftime`, `ParseFormatDate` and `ParseFormatTime`.
- `EventLookup.Texts`, `Times` and `Get`: `LastEventWins`, `GetText` and `GetTime`.
- `MalResults.RowDict`: `RowCellsInColumnOrder`.

| member | source | states |
|---|---|---|
| Decimal.Parse | test.py:8 | `int(s)` yields a number exactly when `s` is a non-empty string of ASCII digits, otherwise the `ValueError` case |
| Decimal.Digits | test.py:58-60 | `str(n)` is a non-empty digit string, starts with '0' only for zero, and is one character exactly for n < 10 |
| Decimal.ParseDigits | test.py:58-60 | reading back the numeral of `n` gives `n` |
| Decimal.ParsePadded | test.py:32 | a zero-padded numeral (`%Y`, `%m`, `%d`, `%H`, `%M`, `%S`) reads back as its number |
| Decimal.PaddedWidth | test.py:32 | a number below 10^w padded to w digits is exactly w characters long |
| Civil.ClockFields | test.py:32 | the hour, minute and second of a valid time are below 24, 60 and 60 and add back up to the second of the day |
| Civil.ClockTime | test.py:32 | the time built from clock fields in range is valid and has exactly those fields |
| Civil.YearOfSpec | test.py:8 | the cycle split puts day n in a year that starts n minus yday days in, with yday within that year's length |
| Civil.MonthOf | test.py:8 | the month estimate `(yday + 50) / 32`, corrected by one, is the month whose day range contains yday |
| Civil.CivilFromDaysSpec | test.py:8 | civil-from-days gives a valid date whose day number is the input |
| Civil.CivilFromDaysInverse | test.py:8 | civil-from-days undoes days-from-civil on every valid date |
| Civil.DaysFromCivilInjective | test.py:8 | two valid dates with the same day number are equal |
| Civil.PosixDays | test.py:8 | from 1970 on, the POSIX 4.16 formula equals whole days since 1970-01-01 times 86400 plus the second of the day |
| Civil.UtcFromTimestampSpec | test.py:6-8 | for every 0 <= ts <= 253402300799 the result is a valid date and time in years 1970 to 9999 whose date is `ts / 86400` days after 1970-01-01, whose time of day is second `ts % 86400`, and which the POSIX formula maps back to ts |
| Civil.UtcFromTimestampInverse | test.py:6-8 | every valid date and time in years 1970 to 9999 has a POSIX timestamp in range, and converting that timestamp gives it back |
| Civil.EpochStart | test.py:32 | timestamp 0 is 1970-01-01 at 00:00:00 |
| IsoFormat.Split | test.py:32 | `str.split()` yields only non-empty words free of white space |
| IsoFormat.SplitTwoWords | test.py:32 | two words joined by one space split back into exactly those two words |
| IsoFormat.DateLayout | test.py:32 | for years up to 9999 the date text is 10 characters in the layout `YYYY-MM-DD`, its fields the padded year, month and day |
| IsoFormat.TimeLayout | test.py:32 | the time text is 8 characters in the layout `HH:MM:SS`, its fields the padded hour, minute and second |
| IsoFormat.SplitStrftime | test.py:32 | splitting the formatted date and time yields exactly the date text and the time text, so the two-name unpacking succeeds |
| IsoFormat.ParseDate | test.py:32 | a date read from text is always a valid calendar date |
| IsoFormat.ParseTime | test.py:32 | a time read from text is always a valid time of day |
| IsoFormat.ParseFormatDate | test.py:32 | reading back a formatted date gives the date |
| IsoFormat.ParseFormatTime | test.py:32 | reading back a formatted time gives the time |
| IsoFormat.TimestampTextRoundTrip | test.py:6-8 | for a timestamp in range, its Date and Time texts are 10 and 8 characters and read back, via the POSIX formula, as the same timestamp |
| IsoFormat.EpochText | test.py:32 | 1970-01-01 and midnight are written `1970-01-01` and `00:00:00` |
| IsoFormat.EpochSplit | test.py:32 | timestamp 0 splits into the words `1970-01-01` and `00:00:00` |
| EventLookup.DictOfKeys | test.py:28-29 | the comprehension's keys are exactly the keys of its pairs |
| EventLookup.DictOfLast | test.py:28-29 | each key maps to the value of the last pair with that key |
| EventLookup.LastPairWins | test.py:28-29 | a pair that no later pair with the same key overrides gives that key's value |
| EventLookup.LastEventWins | test.py:28-29 | a name is a key of either map exactly when some event carries it, and the text and time found are those of the last event with that name |
| EventLookup.GetText | test.py:33-36 | `.get(name, default)` on the text map yields the default for an absent name and the last event's text (even `None`) otherwise |
| EventLookup.GetTime | test.py:32 | `.get(name, default)` on the time map yields the default for an absent name and the last event's `time` otherwise |
| EventLookup.LastExists | test.py:28-29 | every name that occurs has a last occurrence |
| MalResults.IntOf | test.py:8 | `int(text)` yields a number exactly when `text` is a non-empty ASCII digit string of at most 4300 characters, and that number is the text's decimal value |
| MalResults.UnixTimestampToDatetime | test.py:6-8 | `None` raises the `int(None)` error; a non-numeral, or a numeral longer than 4300 digits, the `ValueError` case; a number past 253402300799 the out-of-range error; and any other number converts to its UTC date and time |
| MalResults.DeriveRow | test.py:27-36 | a message without `<events>` fails at once, and a row that is derived carries the message's UID |
| MalResults.LookupsResolve | test.py:32-36 | the ACCEPT lookup yields the last ACCEPT event's `time` or "0", and each of the four field lookups yields the last matching event's text or its placeholder ("N/A", "N/A", "Not available", "Not received with TLS") |
| MalResults.DeriveRowErrors | test.py:28-32 | a message without `<events>` fails with `NoEventsElement`, and otherwise, when its last ACCEPT `time` (or "0") is missing, not a digit string of at most 4300 digits, or past 253402300799, the row fails with `AcceptTimeMissing`, `TimestampNotInteger` or `TimestampOutOfRange` respectively |
| MalResults.DeriveRowShape | test.py:32-36 | when the ACCEPT time converts to a datetime, the row is the UID, that datetime's date and time texts, and the four looked-up fields |
| MalResults.DeriveRowSuccess | test.py:27-36 | a message whose ACCEPT time is a numeral of at most 4300 digits and a timestamp in range gets a row with its UID, Date and Time texts of 10 and 8 characters that read back as the timestamp, and each field resolved to the last event's text or the placeholder |
| MalResults.UnpackNeverFails | test.py:32 | no message fails at the `date, time = ...split()` unpacking |
| MalResults.NoTextCountsAsDelivered | test.py:35-40 | a last TLS_DELIVERY event without text gives the field `None`, which is not the placeholder, so it counts as TLS delivery available |
| MalResults.OverlongNumeralRejected | test.py:6-8 | a zero-padded numeral longer than 4300 digits denotes its number, yet converting it fails with the `ValueError` case, since the digit limit counts leading zeros |
| MalResults.FallbackIsEpoch | test.py:32 | the fallback text "0" converts to timestamp 0 |
| MalResults.MissingAcceptIsEpoch | test.py:32 | a message with events but no ACCEPT event is dated `1970-01-01` at `00:00:00` |
| MalResults.EmptyEventsRow | test.py:28-36 | a message with an empty `<events>` gets the epoch date and time and all four placeholders |
| MalResults.CountsPartition | test.py:39-44 | every row counts once as TLS delivery available or not available, and at most once as received with TLS |
| MalResults.CountsStep | test.py:39-44 | one more row adds one to exactly one of the two delivery counters, and one to the received counter exactly when its TLS Received is not the placeholder |
| MalResults.EmptyEventsCounted | test.py:28-44 | a message with an empty `<events>` adds one to `not_available_count` and leaves the other counters unchanged |
| MalResults.ParseMalResults | test.py:14-55 | the rows are those of the first messages in order, one per message; the pass succeeds exactly when every message has a row; otherwise the first message without a row is the one whose error stopped it; on success the counters are those of the rows, the two delivery counters add up to the number of messages, and the received counter does not exceed it |
| MalResults.WriterCells | test.py:47-55 | the writer emits one cell per header column |
| MalResults.RowCellsInColumnOrder | test.py:21-55 | the row dict has exactly the header's keys, and its cells come out in the column order UID, Date, Time, To, From, TLS Delivery, TLS Received, with `None` written as an empty cell |
| MalResults.Summary | test.py:58-60 | each of the three summary lines is its label followed by a canonical numeral (no leading zero) that reads back as its counter |
| Decimal.CanonicalIsDigits | test.py:58-60 | a canonical numeral is exactly what `str` writes for its value, so each summary line is determined by its counter |

## Left out

- XML parsing (`ET.parse`, `getroot`, `findall`, `find`). This is a foreign library. Messages and events arrive as the `Message` and `Event` datatypes, in document order. An `Event` stands for any child element of `<events>`, whatever its tag, as the loop over `message.find('events')` visits them all.
- CSV serialisation: quoting, the header line, line endings, and opening and writing the file. The output is the sequence of rows, with `RowDict` and `WriterCells` for the mapping to cells.
- `argparse`, `main` and `print`. The summary is the pure string function `Summary` of the counters. From Python 3.12 on, `datetime.utcfromtimestamp` is deprecated, and under the default warning filters the first call writes a `DeprecationWarning` to standard error; that output is not modelled.
- Decimal.Parse: it does not model the whitespace, sign, underscore and non-ASCII digit forms that Python's `int()` also accepts, and such text gives `TimestampNotInteger` here. The default 4300-digit limit of Python 3.11, 3.10.7, 3.9.14, 3.8.14, 3.7.14 and later is modelled in `MalResults.IntOf`: a numeral longer than that gives `TimestampNotInteger`, whatever its value. A limit changed through `PYTHONINTMAXSTRDIGITS` or `-X int_max_str_digits`, and the releases with no limit at all (those before 3.11, 3.10.7, 3.9.14, 3.8.14 and 3.7.14 in their lines), are not modelled.
- UnixTimestampToDatetime: every timestamp past 253402300799 gives the one error `TimestampOutOfRange`. Python raises `ValueError` (year out of range) while `gmtime` can still compute the year, `OSError` once it cannot (from about 6.7·10^16 on), and `OverflowError` above 2^63, where the conversion to `time_t` fails. All of these abort the run. Negative timestamps are not modelled, because their conversion depends on the platform.
- IsoFormat.Split: it treats only ASCII white space as separators. Python's `str.split()` also splits at Unicode white space, but the formatted date and time contain none.
- ParseMalResults: it does not model the file left partly written when an exception stops the pass. The rows returned are the rows written up to that point.
- `UnpackMismatch` models the `ValueError` of the two-name unpacking. `UnpackNeverFails` shows that it cannot occur.
