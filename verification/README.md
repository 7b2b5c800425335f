# catnostk date-window pipeline, modelled in Dafny

catnostk reads a mapping of log records (id → date, pubkey, content), keeps
the records whose Unix-time `date` falls in a window named by a date spec
(`2019`, `2019/07` or `2019/07/15`), sorts them by descending date and prints
them as hand-built JSON-like text. This project models that pipeline of
`catnostk.go` as pure Dafny functions and proves its properties:

- `calendar.dfy` (module `Calendar`): the Gregorian leap rule, month
  lengths, and the Unix day number of a date, which replace the internals of
  Go's `time.Parse` and `AddDate`.
- `bytes.dfy` (module `Bytes`): the date spec as raw bytes (Go's `len`
  counts bytes), ASCII digits, and the `%0Nd` formatting.
- `datespec.dfy` (module `DateSpec`): `parseDate`, `GetLastDayOfMonth`,
  `FirstFourChars`, `getLastTwoChars`, and the date part of the layout parse.
- `records.dfy` (module `Records`): the `CONTENTS`/`NOSTRLOG` records,
  `strconv.ParseInt(s, 10, 64)` and `filterLogsByDateRange`.
- `ordering.dfy` (module `Ordering`): Go's byte-wise string order and the
  descending `sort.Slice` of `main`.
- `escape.dfy` (module `Escape`): the nine `strings.Replace` passes of
  `unmarchalStr`, a per-character reference, and a JSON string-body reader.
- `emit.dfy` (module `Emit`): the `Printf` loop of `main`.
- `pipeline.dfy` (module `Pipeline`): ingest → resolve → filter → sort →
  print, as `main` composes them.
- `examples.dfy` (module `Examples`): concrete cases (February 2020 and
  2019, April, and the one-record runs with specs `2019` and `2018`).
- `results.dfy` (module `Results`): `Option` and `Result`.

Design choices, read from the code:

- Zone offset. The boundary strings end in `JST` and are parsed with the
  `MST` layout element. Go applies +9h only if the host's local zone defines
  the abbreviation `JST`; otherwise the offset is zero. The offset is
  therefore a parameter (`offset`, seconds ahead of UTC), not a fixed +9h.
- Ignored error. `main` discards `parseDate`'s error (catnostk.go:90), so a
  bad spec does not abort the run: the filter runs with the window (0, 0)
  that every error return carries (`Pipeline.EffectiveWindow`).
- Empty output. With no selected records the program prints `{\n}\n`.
- Separator. A 7-byte spec takes its year from bytes 0–3 and its month from
  the last two; byte 4 is never inspected (`DateSpec.SeparatorIgnored`).
  This fragile behaviour is kept as it is.
- Strings. The date spec is raw bytes. Record fields are Dafny strings: they
  come out of a JSON decoder, so they are valid UTF-8. UTF-8 byte order is
  code-point order, so Go's byte-wise `>` is lexicographic order on
  characters. The escape patterns are ASCII, so replacing characters is the
  same as replacing bytes.

## Model

| member | source | states |
|---|---|---|
| Calendar.DaysInMonth | catnostk.go:161-168 | every month has between 28 and 31 days |
| Calendar.MonthsFillYear | catnostk.go:120-122 | the twelve month lengths add up to 365 or 366 by the leap rule, so January 1 to December 31 spans the whole year |
| Calendar.YearStep | catnostk.go:139-147 | the closed-form day count of whole years grows by exactly the Gregorian year length (4/100/400 rule) from one year to the next |
| Calendar.DaysFromEpoch | catnostk.go:139-147 | definition: the Unix day number of a date, counting 1970-01-01 as day 0, behind `sdate.Unix()` and `edate.Unix()`; its properties are `Calendar.YearStep`, `Calendar.MonthsFillYear` and `Calendar.NextDay` |
| Calendar.UnixSeconds | catnostk.go:139-147 | definition: `Unix()` of a parsed boundary, the day number in seconds plus the time of day, minus the zone offset that `time.Parse` resolves `JST` to; the spec-window lemmas state the windows it gives |
| Calendar.NextDay | catnostk.go:166 | day numbers are consecutive: the day after a month's last day is the first of the next month, and after December 31 comes January 1 of the next year |
| Bytes.ZeroPad | catnostk.go:168 | definition of `%0Nd` for a value below 10^N: exactly N digit bytes; `Bytes.ValueOfZeroPad` and `Bytes.ZeroPadOfValue` make it the inverse of reading the digits |
| Bytes.ValueOfZeroPad | catnostk.go:168 | reading back a `%02d`-formatted number gives the number |
| Bytes.ZeroPadOfValue | catnostk.go:168 | formatting the value of a digit string gives the string back |
| DateSpec.ParseLayoutDate | catnostk.go:138-146 | the layout parse succeeds only on a valid date (month 1..12, day within the month) with a 4-digit year |
| DateSpec.ParseFormatRoundTrip | catnostk.go:138-146 | the layout parse and the `%04d/%02d/%02d` formatting are inverses, in both directions |
| DateSpec.FirstFourChars | catnostk.go:176-181 | the result is a prefix of the input, four bytes long or the whole input when shorter |
| DateSpec.LastTwoChars | catnostk.go:188-194 | the result is a suffix of the input, two long or the whole input when shorter |
| DateSpec.FirstOfMonthText | catnostk.go:161-165 | "year-month-01" parses exactly when the year is four digits and the month two digits naming a month, and then names day 1 |
| DateSpec.LastDayByAddDate | catnostk.go:166 | one month after the first, minus one day, is the month's last day: that day plus one is the first of the next month |
| DateSpec.GetLastDayOfMonth | catnostk.go:155-169 | succeeds exactly for a 4-digit year and a month 01..12, and then returns two digits whose value is the month's length; otherwise fails with a calendar error |
| DateSpec.Bounds | catnostk.go:138-147 | the two `time.Parse` calls: every failure is a calendar error, and success needs both boundary texts to be valid dates (the windows they give are stated by the three spec-window lemmas below) |
| DateSpec.ParseDate | catnostk.go:116-148 | the spec is invalid exactly when its length is not 4, 7 or 10; every other failure is a calendar error |
| DateSpec.YearSpecWindow | catnostk.go:119-147 | a 4-byte spec resolves exactly when it is four digits, to Jan 1 00:00:00 through Dec 31 23:59:59 of that year, 365 or 366 whole days |
| DateSpec.MonthSpecWindow | catnostk.go:119-147 | a 7-byte spec resolves exactly when bytes 0-3 are digits and bytes 5-6 are digits naming a month, to the first 00:00:00 through the last day 23:59:59 of that month, as many days as the month has |
| DateSpec.DaySpecWindow | catnostk.go:132-147 | a 10-byte spec resolves exactly when it is a valid YYYY/MM/DD date, to that one day from 00:00:00 to 23:59:59 |
| DateSpec.WindowIsWholeDays | catnostk.go:116-148 | every resolved window has start ≤ end and a length that is a whole number of days |
| DateSpec.SeparatorIgnored | catnostk.go:123-131 | in a 7-byte spec, any byte at index 4 gives the same result |
| DateSpec.FormattedDayResolves | catnostk.go:132-147 | the formatted text of any valid day resolves to exactly that day's window |
| Records.ParseInt64 | catnostk.go:206 | a parsed date lies in the int64 range and its text starts with a digit or a sign |
| Records.ParseInt64Texts | catnostk.go:206 | `ParseInt(s, 10, 64)` yields v exactly when v is in the int64 range and s is an optional '+' or '-' (matching v's sign, so "-0" is 0), any number of '0's, then the shortest digits of the absolute value of v; everything else, such as "1x", "+" or "", is rejected |
| Records.ParsedIsSignedText | catnostk.go:206 | every accepted text is a sign, leading zeros and the digits of its value |
| Records.SignedTextParses | catnostk.go:206 | every such spelling of an int64 value parses to that value |
| Records.ParseFormatInt | catnostk.go:206 | parsing inverts decimal formatting on the whole int64 range |
| Records.FilterLogsByDateRange | catnostk.go:201-218 | the result is an order-preserving subsequence of the input holding exactly, with multiplicity, the records whose date parses to a time in [start, end]; unparseable dates never appear; start > end gives nothing |
| Ordering.LexLess | catnostk.go:93 | definition of Go's byte-wise `<` on strings, by recursion on the first position; its order properties are the lemmas below |
| Ordering.LexLessAtFirstDifference | catnostk.go:93 | the string order is decided at the first differing position, or by which string runs out first |
| Ordering.LexLessTransitive | catnostk.go:93 | the string order is transitive |
| Ordering.LexLessTotal | catnostk.go:93 | any two different strings are ordered one way or the other |
| Ordering.InsertByDate | catnostk.go:92-94 | inserting into a date-descending sequence keeps it descending and adds exactly the one record |
| Ordering.SortByDateDesc | catnostk.go:92-94 | the result is a permutation of the input whose dates never increase under byte-wise string order |
| Escape.EscapeContent | catnostk.go:290-298 | definition: the nine `strings.Replace` passes in source order; what they do together is stated by `Escape.EscapeIsPerCharacter` and the lemmas after it |
| Escape.ReplaceAll | catnostk.go:290 | a pass leaves text without its character unchanged, and removes the character when the replacement does not contain it |
| Escape.ReplaceAllConcat | catnostk.go:290-298 | each pass acts on the two halves of a string independently |
| Escape.EscapeIsPerCharacter | catnostk.go:289-298 | the nine passes in order equal escaping each character on its own by the hand-derived table |
| Escape.EscapeLeavesPlainText | catnostk.go:289-298 | text without any of the eight rewritten characters is unchanged; the empty content stays empty |
| Escape.EscapeOutputShape | catnostk.go:289-298 | the output holds no raw newline, backspace, form feed, carriage return or tab, and every quote and slash in it directly follows a backslash |
| Escape.EscapeLoneQuote | catnostk.go:290-298 | a lone quote becomes the four characters backslash, backslash, backslash, quote |
| Escape.EscapeLoneNewline | catnostk.go:290-298 | a newline becomes the three characters backslash, backslash, n |
| Escape.EscapeFixedPoints | catnostk.go:289-298 | the chain leaves a text unchanged exactly when it holds none of the eight rewritten characters; for every other text, escaping the output again changes it, so the chain is not idempotent |
| Escape.EscapeEachGrows | catnostk.go:289-298 | escaping never shortens a text and lengthens every text holding a rewritten character |
| Escape.JsonReadsControlPasses | catnostk.go:289-298 | a JSON reader of the escaped content gets back the content after only the first six passes: backslashes and slashes round-trip, quotes and control characters come back as a backslash and a letter |
| Escape.UnescapedControlUnreadable | catnostk.go:289-298 | for any content holding, at any position, a control character outside the five rewritten ones, that character stays raw and the escaped content is not a readable JSON string body |
| Escape.UnreadableEach | catnostk.go:289-298 | the same for the per-character escaping: one such raw character anywhere makes the whole body unreadable |
| Emit.EntryBody | catnostk.go:100-104 | definition: the `Printf` template of one entry, without its trailing separator |
| Emit.Render | catnostk.go:95-108 | definition: the brace lines around the loop, each entry followed by ",\n" except the last, which is followed by "\n"; its shape is stated by `Emit.RenderIsJoin` |
| Emit.RenderIsJoin | catnostk.go:95-108 | the output is "{\n", the entries joined by ",\n", then "\n}\n"; no records print "{\n}\n" |
| Emit.RenderAppend | catnostk.go:95-108 | adding a record turns the previous last entry's closing "}\n" into "},\n" and appends the new entry before the closing line |
| Pipeline.Ingest | catnostk.go:285-302 | definition: `IngestOne` applied to every decoded record, in order; what each ingested record holds is stated by `Pipeline.IngestOne` |
| Pipeline.EffectiveWindow | catnostk.go:90-91 | definition: the resolved window, or (0, 0) when `parseDate` fails and `main` ignores the error; its consequence is stated by `Pipeline.InvalidSpecKeepsOnlyZero` |
| Pipeline.IngestOne | catnostk.go:285-301 | ingestion keeps id, date and pubkey, and the stored content has every quote and slash escaped |
| Pipeline.Selected | catnostk.go:90-94 | the printed records are sorted by descending date and are, with multiplicity, exactly the ingested records inside the effective window, each with escaped content |
| Pipeline.Run | catnostk.go:90-108 | definition: the printed text of the selected records; `Pipeline.Selected` states which records and in which order |
| Pipeline.InvalidSpecKeepsOnlyZero | catnostk.go:90-91 | with a spec that `parseDate` rejects (wrong length or invalid date) the run goes on and keeps exactly the records whose date parses to 0 |
| Examples.LeapFebruary | catnostk.go:155-169 | February 2020 ends on day "29" |
| Examples.CommonFebruary | catnostk.go:155-169 | February 2019 ends on day "28" |
| Examples.EveryApril | catnostk.go:155-169 | April ends on day "30" in every 4-digit year |
| Examples.SpecYearIncludes | catnostk.go:90-108 | with an offset from 0 to +9h, spec "2019" prints the record dated 1546300800 as the only entry |
| Examples.SpecYearExcludes | catnostk.go:90-108 | with an offset from 0 to +9h, spec "2018" prints only "{\n}\n" for the same record |

## Left out

- `readStdIn` (catnostk.go:225-243): a goroutine racing a 5-second timer; concurrency and I/O.
- `loadSourceFile` and the json5 decode, marshal and unmarshal calls (catnostk.go:250-284): file I/O and a foreign library. The decoded mapping is a given sequence of records, in whatever order Go's map iteration yields.
- `confClass` checks, `flag` parsing, `log.Fatal`/`os.Exit` (catnostk.go:55-89) and `startDebug` (catnostk.go:311-318): configuration and process glue. The unused constants at catnostk.go:23-28 are not modelled.
- `time.LoadLocation("Asia/Tokyo")` (catnostk.go:156-159) is assumed to succeed; its failure path (missing zone data) is not modelled.
- Zone lookup: Go looks up the `JST` abbreviation per instant; the model uses one fixed offset and ignores historical daylight-saving periods.
- The time-of-day and zone suffixes (catnostk.go:30-31) are constants that always match the layout; they are modelled as the seconds-of-day 0 and 86399 plus the offset, not as parsed text.
- DateSpec.LastTwoChars: slices the last two bytes, not the last two runes. The two differ only when one of the last two bytes is non-ASCII, and then both results contain a non-digit, so the month parse fails either way.
- Ordering.SortByDateDesc: Go's `sort.Slice` is not stable and leaves the order of equal dates unspecified; the model fixes one such order, and its contract promises only what Go guarantees.
- Escape.JsonUnescape does not read `\uXXXX` escapes; the escaper never emits one.
- Bounds checks on int64 are not needed: 4-digit years keep every Unix time far inside the int64 range.
