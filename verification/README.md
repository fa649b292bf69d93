# Hourly weather logger: a Dafny model

The service polls a weather provider once an hour and appends each sample to a
CSV file. This project models the three deterministic pieces of it and proves
properties about them:

- **Row normalisation** (`format_weather_data`). A raw snapshot is mapped onto
  the fixed schema of eleven unit-labelled columns. Each field present under
  `current_data` is copied unchanged. A missing field takes its default: the
  integer 0, the float 0.00 for precipitation and rain, or the current local
  time for `time`.
- **Append with header decision** (`append_weather_data_to_csv`). The target
  file is `Option<seq<Record>>`: `None` is a file that does not exist and
  `Some([])` is an empty file. A header record is written first only in those
  two states. Exactly one data row is then added after the existing content.
  The boolean result is `true` on success and `false` on any exception.
- **Hour alignment and the fetch loop** (`background_fetch`). Time is a count of
  microseconds since `0001-01-01T00:00`. From "now" the model computes the next
  hour boundary and the delay until it. One loop iteration is fetch, append,
  then a fixed one-hour sleep. A bounded run of the loop records when each
  iteration woke up. The `update_frequency` endpoint is modelled as well.

Modules:

| file | module | models |
|---|---|---|
| `values.dfy` | `Values` | decoded JSON values, `Option`, Python's `dict.get` |
| `csv_schema.dfy` | `CsvSchema` | `COLUMNS` and `format_weather_data` in `utils/csv_handler.py` |
| `csv_handler.dfy` | `CsvHandler` | `append_weather_data_to_csv` in `utils/csv_handler.py` |
| `scheduler.dfy` | `Scheduler` | `main.py` lines 60-64 |
| `service.dfy` | `Service` | `main.py` lines 38, 74-84 and 130-145 |

The clock, the fetch and the file system are parameters. Each iteration
(`Service.Tick`) receives four things: the fetched snapshot (`{}` when the fetch
failed), the time already rendered as `YYYY-MM-DDTHH:MM`, the microseconds the
fetch and append took, and whether the file I/O raised.

Two consequences of the code that are easy to miss:

- When "now" is exactly on the hour, `background_fetch` waits a full hour. A
  start at 15:00:00 therefore writes its first row at 16:00:00, not at
  15:00:00 (`Scheduler.InitialAlignment`, `Scheduler.DelayExamples`).
- A snapshot without `current_data`, such as the `{}` of a failed fetch, gives
  a row of defaults. If `current_data` is present but is not an object (for
  example `null`), `format_weather_data` raises, so the append returns false
  and writes nothing (`CsvSchema.FormatWeatherData`, `CsvHandler.Append`).

## Model

| member | source | states |
|---|---|---|
| `CsvSchema.ColumnSetHasElevenLabels` | utils/csv_handler.py:21-33 | the eleven column labels are pairwise distinct, so the schema has exactly eleven keys |
| `CsvSchema.FormatCurrent` | utils/csv_handler.py:54-66 | the dictionary built from `current_data` has exactly the keys listed in `COLUMNS` |
| `CsvSchema.FormatCurrentFollowsSchema` | utils/csv_handler.py:55-65 | a field present in `current_data` is copied unchanged under its unit-labelled column; a missing measurement becomes 0, or 0.00 for precipitation and rain; a missing `time` becomes the supplied current-time string |
| `CsvSchema.CurrentData` | utils/csv_handler.py:53-55 | a missing `current_data` entry reads as `{}`; an object under `current_data` yields exactly its own entries; any other value makes the first `.get` raise |
| `CsvSchema.FormatWeatherData` | utils/csv_handler.py:36-67 | normalisation succeeds exactly when `current_data` is absent or an object, and then yields the eleven columns built from that object's entries (or from `{}`) |
| `CsvSchema.FormatHasExactlyTheColumns` | utils/csv_handler.py:54-66 | a normalised row has exactly eleven keys, and a key is in it exactly when it is one of `COLUMNS` |
| `CsvSchema.FormatIgnoresUnknownFields` | utils/csv_handler.py:53-66 | two `current_data` dictionaries that agree on the eleven known fields give the same row, so any other key is dropped |
| `CsvSchema.MissingCurrentDataGivesDefaults` | utils/csv_handler.py:53-66 | a snapshot without `current_data`, such as the `{}` of a failed fetch, gives the current time and every measurement default |
| `CsvSchema.RowOf` | utils/csv_handler.py:97 | the one-row frame holds eleven cells, and cell i is the value of column i of `COLUMNS` |
| `CsvHandler.WriteRow` | utils/csv_handler.py:100-102 | after the write the old records are a prefix of the file; it grew by two records (header and row) when the file was absent or empty and by one otherwise; the header comes first in the former case and the new row is always last |
| `CsvHandler.Append` | utils/csv_handler.py:95-107 | returns true exactly when normalisation and I/O succeed; on failure the file is unchanged; on success the old content is a prefix of the new, a header comes first when the file was absent or empty, and the last record is the new data row |
| `CsvHandler.AppendedRowFollowsSchema` | utils/csv_handler.py:96-102 | for any snapshot with an object under `current_data`, whatever other keys it has, the call succeeds when I/O works, and the data row written holds, in column order, each present field unchanged, a missing `time` as the current time and each other missing field at its default |
| `CsvHandler.HeaderWrittenIffAbsentOrEmpty` | utils/csv_handler.py:100-102 | a successful append adds a header if and only if the file was absent or had size zero |
| `CsvHandler.WriteRowHeaderCount` | utils/csv_handler.py:100-102 | one write raises the number of header records by one exactly when the file was absent or empty, and leaves it alone otherwise |
| `CsvHandler.Outcome` | utils/csv_handler.py:95-107 | on every file, one call either writes its row (and returns true) or leaves the file untouched (and returns false); which one it is and the row it writes depend only on the call, not on the file |
| `CsvHandler.AppendAllIsWriteAll` | utils/csv_handler.py:95-107 | a sequence of calls has the same effect as writing, in order, the rows of the calls that succeed and skipping the rest |
| `CsvHandler.WriteAllContent` | utils/csv_handler.py:100-102 | writing a sequence of rows keeps the prior content as a prefix, adds one header only when the file started absent or empty and some row was written, then the written rows in order; writing nothing leaves the file as it was |
| `CsvHandler.AppendAllContent` | utils/csv_handler.py:95-107 | repeated appends keep the prior content as a prefix; they add one header only when the file started absent or empty and some call succeeded; then come the successful calls' rows in call order, with no deduplication |
| `CsvHandler.FreshWriteAll` | utils/csv_handler.py:100-102 | writing n rows into an absent or empty file gives exactly one header, first, followed by the n rows in order |
| `CsvHandler.FreshFileGetsOneHeaderThenRows` | utils/csv_handler.py:95-107 | from an absent or empty file, n successful appends give exactly one header followed by the n data rows in call order |
| `CsvHandler.NonEmptyFileNeverGetsHeader` | utils/csv_handler.py:100-102 | appends to a non-empty file never add a header, and they keep the old content as a prefix |
| `Scheduler.TruncateToHour` | main.py:61-62 | truncating to the hour gives an hour boundary no later than now and less than an hour before it, so the guard `now >= next_hour` always holds |
| `Scheduler.InitialAlignment` | main.py:60-64 | the target is an hour boundary; 0 < delay <= 1 h; the delay is a full hour exactly when now is on a boundary; no boundary lies strictly between now and the target; the addition overflows only in the last hour `datetime` can hold |
| `Scheduler.NextHourIsTruncationPlusOneHour` | main.py:61-63 | the target is always the start of the current hour plus one hour |
| `Scheduler.NextHourIsLeastBoundaryAfter` | main.py:61-64 | every hour boundary strictly after now is at or after the target |
| `Scheduler.DelayWithinDay` | main.py:60-64 | a time k hours and r microseconds into a day, with k below 23, waits 1 h - r for the start of hour k + 1 of that day, on every day `datetime` holds |
| `Scheduler.DelayAcrossMidnight` | main.py:61-63 | a time in the last hour of a day, before 9999-12-31, waits until midnight of the next day |
| `Scheduler.LastHourOverflows` | main.py:61-63 | in the last hour of 9999-12-31 adding one hour overflows, so there is no alignment |
| `Scheduler.DelayExamples` | main.py:60-64 | at 14:23:10 the delay is 2210 s, and at 15:00:00 it is 3600 s, on every day `datetime` holds, 9999-12-31 included |
| `Service.LoopStep` | main.py:74-84 | one iteration stores the fetched snapshot, hands it to the appender whatever it holds, leaves `fetch_interval` alone and advances the clock by the work time plus 3600 s |
| `Service.SleepIgnoresIntervalAndOutcome` | main.py:79-84 | the next wake-up time depends only on the clock and the work time, not on `fetch_interval`, the fetch result or the append outcome |
| `Service.EmptyFetchStillAppendsDefaults` | main.py:76-79 | an empty fetch result is still appended, and when I/O works it adds a row of defaults stamped with the current time |
| `Service.RunLoop` | main.py:74-84 | after n iterations the file is the result of the n appends in order, the interval is unchanged, and each iteration starts one hour after the previous one finished |
| `Service.RunService` | main.py:38-84 | the thread starts with `fetch_interval` at 3600 and `latest_weather_data` empty; the first iteration starts at the first hour boundary strictly after start-up, at most an hour later; each later one starts one hour after the previous one finished, so iteration j starts j hours after the first plus the time spent working so far; the file is the appends in order and the interval is never changed by the loop; when the alignment overflows, nothing is appended |
| `Service.WakesStayAlignedWithoutDrift` | main.py:70-84 | if fetching and appending take no time, every iteration starts on an hour boundary exactly one hour after the previous one |
| `Service.UpdateFrequency` | main.py:130-145 | a request is accepted exactly when `seconds > 0`, and then `fetch_interval` becomes `seconds` with nothing else changed; a rejected request changes nothing |
| `Service.IntervalStaysPositive` | main.py:131-143 | `fetch_interval` stays positive under the endpoint and under the loop |
| `Service.MessageNamesInterval` | main.py:145 | the confirmation is the fixed prefix, then the decimal digits that read back as `seconds`, then the fixed suffix |
| `Service.DecimalRoundTrip` | main.py:145 | reading the decimal rendering of a natural number gives back that number |

## Left out

- `utils/weather_fetcher.py` and `weather_fetcher.py` are not part of this model. They are HTTP calls to the Open-Meteo API, and a catch-all turns any error into `{}`. A fetch is an arbitrary snapshot, possibly empty.
- The HTTP routes `/weather`, `/weather/hourly` and `/weather/historic` are left out. They are stateless call-throughs to the fetchers. Of the FastAPI layer, only the `gt=0` validation of `update_frequency` is modelled, as `Service.Reply.Rejected`.
- pandas serialisation is left out: quoting, float formatting and encoding. A record stands for one written CSV line; a data record holds exactly the eleven values, with no index column, as `index=False` writes it.
- CsvHandler.Append: when the file I/O raises, the model leaves the file unchanged. A `to_csv` that fails partway could leave a partial line, and that is not modelled. Whether I/O fails is a parameter chosen by the environment.
- The daemon thread, `time.sleep`, real time and the infinite loop are left out. The loop is run for a finite sequence of iterations (`Service.RunLoop`). The time each iteration spends fetching and appending is a parameter.
- The unsynchronised sharing of `latest_weather_data` and `fetch_interval` between the thread and the request handlers is left out. It is concurrency behaviour.
- `datetime.now()` and `strftime` are left out. The current instant is a parameter, and so is the rendered `YYYY-MM-DDTHH:MM` string. Time zones and DST are ignored, because the code uses naive local time.
- Scheduler.InitialAlignment: gives the delay in integer microseconds. The source's `total_seconds()` returns a float in seconds, and that rounding is not modelled.
- Logging and the uvicorn entry point are left out.
