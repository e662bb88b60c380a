# Train sighting recorder — a verified model

This project models the core of a tracker for suburban trains. A poller reads a
departures feed and hands each `<train>` element to `record()` as a dict. That
function reconciles the sighting with the `results` table and decides whether
to send a notification.

`record()` works in four steps:

1. **Classify the status.** `etat` becomes a `type`. A cancellation token
   (prefix `Suppr`, or exactly `S`) gives `SUPPR`. Otherwise a delay token
   (prefix `Retard`, or exactly `R`) gives `RETARD`. Any other text becomes the
   type verbatim. A missing or empty `etat` gives `NORMAL` and is stored as `''`.
2. **Rewrite the date.** The feed's `DD/MM/YYYY HH:MM` is rewritten as the
   stored `YYYY-MM-DD HH:MM:SS` (seconds `00`), and the ISO weekday is added.
3. **Look up the train.** `find_one` searches for a row with the same number
   whose stored date is later, as text, than `now - 4h`. No order is imposed,
   so when several rows qualify any one of them may come back.
4. **Run the first matching branch.**
   - No row: insert the sighting.
   - A new cancellation: set `etat` and `type` on the row.
   - A different timestamp: mark the row `RETARD`. The delay is `timedelta.seconds`.
   - A different type: copy `etat` and `type` to the row.
   - An identical sighting matches no branch and changes nothing.

A new cancellation is announced with `cancel=False`. A cancelled row put back in
service by the last branch is announced with `cancel=True`. Because the delay branch
never rewrites the stored timestamp, a train cancelled at a time other than
the stored one flips between `SUPPR` and `RETARD` on repeated identical
sightings, and the cancellation is announced again every other time
(`Flag.CancelThenRepeat`).

The model is organised as follows:

- `Text` (text.dfy): decimal digit strings and the text order SQLite uses on `TEXT` columns.
- `Calendar` (calendar.dfy): the proleptic Gregorian calendar of Python's
  `datetime`. It covers validity, day ordinals, the ISO weekday, seconds counted from
  0000-12-31 00:00:00, subtracting whole hours and the seconds part of a difference.
- `Strtime` (strtime.dfy): `strptime` and `strftime` for the directives
  `%d %m %Y %H %M %S`, literal characters and whitespace.
- `Utils` (utils.dfy): the five helpers of utils.py.
- `Store` (store.dfy): the `results` table. It is a class whose row list
  `find_one` reads and `insert` and `update` change in place.
- `Flag` (flag.dfy): `record()`. The pure pieces are `Classify`, `Prepare`,
  `React` and `Step`. The method `Record` runs the source's branches on a
  `ResultsTable` and is proved to end in a state that `Recorded` allows.

Python exceptions become values. `ValueError` from an unreadable feed timestamp
is `MalformedDate`. `OverflowError` from a clock within four hours of year 1 is
`ClockOutOfRange`. An unreadable stored timestamp in the delay branch is
`MalformedStoredDate`, and `RecordedKeepsWellStored` shows that a table written
only by `record()` never produces it. The notification is returned as an intent
(`Silent` or `Send(data, cancel)`), so a call announces at most one thing.

A train seen earlier than its stored time gets 86400 minus the gap, not a
negative delay: the code stores `timedelta.seconds`, which is (new - old) mod
86400 (`Flag.DelayBranch`).

## Model

| member | source | states |
|---|---|---|
| Flag.Classify | flag.py:21-31 | `NORMAL` exactly for a missing, empty or literal `NORMAL` etat. `SUPPR` exactly for a cancellation token or `SUPPR`. `RETARD` exactly for a delay token (or `RETARD`) that is not a cancellation token. Any other text is the type verbatim. `etat` is stored unchanged, or as `''` when missing |
| Flag.Prepare | flag.py:21-35 | fails, with `MalformedDate`, exactly when the feed timestamp does not parse. A prepared sighting's date reads back with `get_datetime_from_iso`. Its fields are given by `Flag.PrepareSighting` |
| Flag.React | flag.py:46-82 | a sighting is inserted exactly when no row was found. Otherwise only the found row's id is updated, and nothing is written exactly when the found row has the sighting's timestamp and type. Only a differing timestamp can fail, and every notice carries the sighting. The branches are detailed in `Flag.InsertBranch`, `Flag.CancelBranch`, `Flag.DelayBranch`, `Flag.FlipBranch` and `Flag.NoticeIff` |
| Flag.Step | flag.py:46-82 | a failure leaves the table as it was. An insert appends one row after the old ones. An update keeps the row count and every row with another id |
| Flag.PrepareSighting | flag.py:34-35 | a sighting exists exactly when the feed timestamp parses. Its date is the ISO form of that instant with seconds 0 and reads back to it. Its weekday is that instant's ISO weekday in 1..7. Its status comes from `Classify`, and the identity fields are copied |
| Flag.Record | flag.py:17-82 | keeps the table's ids unique and positive. The new table and the result are those `Recorded` allows: an early failure that writes nothing, or the branch chosen for a row `find_one` may return |
| Flag.InsertBranch | flag.py:47-50 | with no row found, exactly one row is appended under a fresh id. It holds every field of the sighting and no delay, and the old rows are kept. The notice is `Send(cancel=False)` exactly when the type is `SUPPR` |
| Flag.CancelBranch | flag.py:52-58 | a cancellation of a row not already `SUPPR` changes only that row's `etat` and `type`, and the row count is unchanged. It is announced with `cancel=False` |
| Flag.DelayBranch | flag.py:60-69 | a different timestamp marks the row `RETARD`, changing only `etat`, `type` and `delay`. The delay is in [0, 86400) and congruent to new - old modulo 86400. It is the exact difference when the train is later by under a day, and wraps when it is earlier. No notice is sent, whatever the type. An unreadable timestamp, new or stored, fails and writes nothing |
| Flag.FlipBranch | flag.py:71-79 | same timestamp with another type changes only `etat` and `type`. A row that was `SUPPR` is announced with `cancel=True`, any other row is not announced |
| Flag.StepUnchanged | flag.py:46-82 | a sighting with the row's timestamp and type writes nothing and announces nothing |
| Flag.NoticeIff | flag.py:46-82 | `Send(cancel=False)` if and only if the type is `SUPPR` and no row or a non-`SUPPR` row was found. `Send(cancel=True)` if and only if a `SUPPR` row with the same timestamp is seen with another type. Every notice carries the sighting |
| Flag.StepKeepsKeys | flag.py:54-76 | no branch that updates changes the row count or any row's id, number or timestamp |
| Flag.CancelThenRepeat | flag.py:52-82 | the delay branch never rewrites the stored timestamp. A train recorded at one time and cancelled at another is announced with `cancel=False`. The next identical cancellation silently turns the row back into `RETARD`, and the one after announces the cancellation again. The row alternates, and the notice repeats every other sighting while the row stays in the window |
| Flag.RecordedFailure | flag.py:34-41 | an unreadable feed timestamp, or a clock within four hours of year 1, fails before any write. Every failure leaves the table unchanged |
| Flag.RecordedLookup | flag.py:40-50 | the insert branch runs when no row of the number is dated after the limit. Otherwise the branch runs on one such row, and on the only one when there is just one |
| Flag.RecordedChoice | flag.py:40-44 | a successful call ran the branch for a value `find_one` may return |
| Flag.LookupChoice | flag.py:40-44 | the lookup comes back empty exactly when no row qualifies, returns a qualifying row otherwise, and returns the only qualifying row when there is one |
| Flag.MatchesWindow | flag.py:41 | a row whose date is in ISO form is found exactly when it has the same number and its instant is later than `now` minus 14400 seconds |
| Flag.StaleRowsIgnored | flag.py:40-50 | when every row of the number is at least four hours old, the sighting is appended as a new row, as for a train that runs again the next day |
| Flag.InsertKeepsWellStored | flag.py:50 | inserting a prepared sighting keeps every stored timestamp in ISO form |
| Flag.UpdateKeepsWellStored | flag.py:54-76 | an update keeps every stored timestamp in ISO form and never hits an unreadable one |
| Flag.StepKeepsWellStored | flag.py:46-76 | any branch keeps every stored timestamp in ISO form and never fails on the stored timestamp |
| Flag.RecordedKeepsWellStored | flag.py:17-82 | `record()` keeps every stored timestamp in ISO form, so the stored-timestamp error never arises |
| Flag.StepKeepsSingleMatch | flag.py:46-76 | a branch run on what the lookup returned keeps at most one row per number dated after the limit |
| Flag.RecordedKeepsSingleMatch | flag.py:37-76 | `record()` keeps at most one row per train number dated after `now - 4h` |
| Flag.LaterLimit | utils.py:26-30 | a later clock gives the same limit or a later one as text |
| Flag.SingleMatchLaterLimit | flag.py:41 | a table with one candidate per number under a limit has that property under any later limit |
| Flag.LaterClockKeepsSingleMatch | flag.py:37-41 | the one-candidate-per-number property survives the clock moving forward |
| Flag.SameDateRowAfter | flag.py:52-79 | after any branch on a row with the sighting's timestamp, the row carries the sighting's type |
| Flag.SightingRow | flag.py:46-79 | provided every row of the number inside the window already carries the sighting's timestamp: after a sighting inside the window, some row inside the window has its number, timestamp and type |
| Flag.IdenticalResightingIsQuiet | flag.py:46-82 | provided the table held at most one row per number inside the window, and that row (if any) already carried the sighting's timestamp: a repeated identical sighting inside the window writes nothing and announces nothing. Without the timestamp condition the second sighting can rewrite the row (`Flag.CancelThenRepeat`) |
| Flag.NotTokens | flag.py:24-27 | `NORMAL` is neither a cancellation nor a delay token, `SUPPR` is not a delay token, and `RETARD` is not a cancellation token |
| Store.ResultsTable.FindOne | flag.py:41 | returns a row with the number dated after the limit, and returns nothing only when there is none |
| Store.ResultsTable.Insert | flag.py:50 | appends the row under the next id, one past the largest in use, and keeps ids unique and positive |
| Store.ResultsTable.Update | flag.py:54-76 | applies the patch to the rows with the id and keeps ids unique and positive |
| Store.ResultsTable.constructor | flag.py:42-44 | an empty table, which `find_one` treats as having no row |
| Store.MaxId | flag.py:50 | the largest id in use (0 for an empty table), bounding every id |
| Store.NextId | flag.py:50 | a positive id not yet in use |
| Store.Apply | flag.py:54-76 | an update changes `etat` and `type`, and `delay` when given, and keeps every other column |
| Store.UpdatedFrame | flag.py:54-76 | an update keeps the row count and every id, leaves rows with other ids alone, and keeps ids unique |
| Store.InsertedFresh | flag.py:50 | appending under the next id keeps ids unique |
| Utils.GetDatetime | utils.py:10-13 | a parsed feed timestamp is a valid datetime with seconds 0 |
| Utils.GetDatetimeFromIso | utils.py:16-18 | a parsed stored timestamp is a valid datetime |
| Utils.GetDatestring | utils.py:21-23 | the stored form is always 19 characters with the fixed-width layout |
| Utils.FeedString | tests/test_flag.py:52-54 | the feed form of a datetime is 16 characters with the fixed-width feed layout |
| Utils.IsoLayout | utils.py:21-23 | the stored form is the 4-digit year, 2-digit month, day, hour, minute and second, joined by `-`, ` ` and `:` |
| Utils.FeedLayout | utils.py:10-13 | the feed form is the 2-digit day and month, the 4-digit year, and the 2-digit hour and minute, joined by `/`, ` ` and `:` |
| Utils.FeedLeavesSecondsUnset | utils.py:10-13 | parsing the feed format leaves the seconds at 0 |
| Utils.IsoRoundTrip | utils.py:16-23 | reading back the stored form of a valid datetime gives that datetime |
| Utils.IsoRoundTripConverse | utils.py:16-23 | a fixed-width stored timestamp that parses is written back unchanged |
| Utils.DatestringInjective | utils.py:21-23 | distinct datetimes have distinct stored forms |
| Utils.DatestringOrder | utils.py:21-23 | text order of stored forms is chronological order, in both directions |
| Utils.FeedRoundTrip | utils.py:10-13 | reading back the feed form of a whole-minute datetime gives that datetime |
| Utils.FeedRoundTripConverse | utils.py:10-13 | a fixed-width feed timestamp that parses is written back unchanged |
| Utils.ConvertToIso | utils.py:6-7 | conversion succeeds exactly when the feed timestamp parses. The result reads back as the same datetime, with seconds 0 |
| Utils.ConvertToIsoLayout | utils.py:6-7 | on a fixed-width feed timestamp, DD/MM/YYYY HH:MM becomes YYYY-MM-DD HH:MM:00 |
| Utils.GetLimitDate | utils.py:26-30 | the limit exists exactly when `now` is at least four hours after year 1 began. It is then valid and exactly 14400 seconds earlier |
| Utils.FormatsWellFormed | utils.py:12 | both formats have a field after every space and name each field at most once |
| Strtime.Strftime | utils.py:21-23 | writes the directives in turn, each field zero-padded to its width. Its properties are stated by `Strtime.StrftimeShaped`, `Strtime.StrftimeOrder` and `Strtime.ParseRendered` |
| Strtime.Strptime | utils.py:13 | a successful parse is a valid datetime |
| Strtime.Set | utils.py:13 | setting a field changes that field only |
| Strtime.ScanField | utils.py:13 | a scanned number has width 1 to the available length and lies in the directive's range |
| Strtime.WhitespaceRun | utils.py:13 | the maximal run of leading whitespace |
| Strtime.ParseRendered | utils.py:16-23 | parsing what `strftime` wrote restores every field the format names |
| Strtime.RenderParsed | utils.py:16-23 | writing back what `strptime` read from fixed-width text gives the same text |
| Strtime.StrftimeShaped | utils.py:21-23 | `strftime` output has the fixed-width layout of its format |
| Strtime.StrftimeOrder | utils.py:21-23 | text order of `strftime` outputs is the order of the named fields, taken in format order |
| Strtime.ScanRendered | utils.py:13 | a zero-padded field in range is scanned back at full width |
| Strtime.Parse | utils.py:10-18 | after a match, every field the format names is within its directive's range, and every field it does not name keeps its value |
| Strtime.FillGet | utils.py:13 | a parse fills exactly the fields the format names |
| Calendar.DaysInMonth | utils.py:10-13 | months have 28 to 31 days, and 29 only for February of a leap year |
| Calendar.Weekday | flag.py:35 | the ISO weekday is in 1..7 |
| Calendar.WeekdayPrevDay | flag.py:35 | the previous day's weekday is one less, with Monday followed back to Sunday |
| Calendar.FirstInstant | flag.py:35 | 0001-01-01 00:00:00 is `datetime.min` and a Monday |
| Calendar.SampleDayWednesday | flag.py:35 | 2012-05-23, the feed date in the parser test, is a Wednesday |
| Calendar.DeltaSeconds | flag.py:62-63 | `timedelta.seconds` of new - old is in [0, 86400) and congruent to the difference modulo one day |
| Calendar.DeltaSecondsTimeOfDay | flag.py:62-63 | that value depends only on the two times of day |
| Calendar.DeltaSecondsWithinDay | flag.py:62-63 | it is the exact difference under a day, and a negative difference under a day wraps to one day plus the difference |
| Calendar.SubtractHours | utils.py:30 | subtracting whole hours keeps the minutes and seconds and gives an hour of the day. It fails only on 0001-01-01, when more hours are taken than have passed that day. The exact result is given by `Calendar.SubtractHoursExact` |
| Calendar.SubtractHoursExact | utils.py:30 | subtracting whole hours fails exactly when the result would precede `datetime.min`, and is otherwise valid and exactly that many seconds earlier |
| Calendar.ChronologicalOrder | flag.py:60-62 | seconds order is calendar-field order, and equal seconds means the same datetime |
| Calendar.Ordinal | flag.py:35 | a real date's day number comes after every day of the earlier years and falls within its own year |
| Calendar.OrdinalOrder | flag.py:62 | an earlier calendar date has a smaller day ordinal |
| Calendar.OrdinalPrevDay | utils.py:30 | the previous day is valid and one ordinal earlier |
| Calendar.DaysBeforeYearClosedForm | flag.py:62 | the day count before a year equals 365(y-1) + (y-1)/4 - (y-1)/100 + (y-1)/400 |
| Calendar.DaysBeforeYearGrows | flag.py:62 | a later year starts after the whole of an earlier year |
| Calendar.ToSeconds | flag.py:62 | the scale of `datetime` subtraction. No valid datetime is before `datetime.min`. Its order and differences are given by `Calendar.ChronologicalOrder` and `Calendar.DeltaSeconds` |
| Text.ValueOfDigits | utils.py:21-23 | the zero-padded digits of a value read back as that value |
| Text.DigitsOfValue | utils.py:16-18 | a digit string is the zero-padded form of its value |
| Text.LexLessDigits | utils.py:21-23 | text order on equal-width zero-padded numbers is numeric order |
| Text.LexLessAppend | flag.py:41 | texts with equal-length heads compare by head, then by tail |
| Text.LexLessTransitive | flag.py:41 | text order is transitive |
| Text.LexLessIrreflexive | flag.py:41 | no text is after itself |

## Left out

- `api_request` and `run` (flag.py:85-120) are not modelled: they do HTTP, XML parsing and the command line. The model takes an already-built `Observation`.
- notifications.py is not part of this model. Sending e-mail or Pushbullet messages is replaced by the returned `Notice`.
- database.py is not part of this model. The `dataset` table becomes `Store.ResultsTable`. The `AttributeError` raised on a table that does not exist yet is modelled as "no row found".
- web.py, make_train_list.py, frontend.py and the front-end sources are not modelled: they are queries, file output and UI over the same table.
- The clock is the parameter `now`, taken at whole seconds. Stored dates are whole seconds, so microseconds never change the text comparison `date > limit`. The two poll directions are processed one observation at a time, with no concurrency.
- Column type coercion by the storage layer (for example `term` stored as an integer) is left out: every column keeps the value it was given.
- Flag.Record: the caller's dict is not updated in place. The fields `record()` writes into it (`type`, `etat`, `date`, `weekday`, `delay`) appear in the sighting, the rows and the notice instead.
- Strtime.Strptime: only ASCII digits are accepted, and only space and `\t` to `\r` count as whitespace. On `str`, Python's `\d` also accepts other Unicode digits, and its `\s` also accepts `\x1c` to `\x1f` and the Unicode spaces.
- Utils.GetDatestring: years before 1000 are zero-padded to four digits. CPython's padding of such years depends on its version and platform; on glibc it writes them without padding. `record()` then raises `ValueError` at flag.py:35, because `%Y` reads exactly four digits. The model instead inserts a row.
- Store.ResultsTable.Insert: the next id is one past the largest in use, as SQLite assigns rowids. Running out of rowids is not modelled.
- Calendar.SubtractHours: only whole hours from 0 to 23 are subtracted, which covers the four hours `get_limit_date` uses.
