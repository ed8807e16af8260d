# Weather ingestion and yearly statistics, in Dafny

This project models the two batch jobs of a small weather-data service and
the two tables they share.

- **Ingestion** (`src/ingest_weather.py`). Each station file holds lines of
  four whitespace-separated tokens: `YYYYMMDD max min precip`. Readings are
  tenths of a degree and tenths of a millimetre, and `-9999` marks a missing
  reading. For every line the job does the following:
  - it trims the line and skips it if blank;
  - it skips the line unless it splits into exactly four tokens;
  - it parses the date and the three readings;
  - it inserts the observation, keyed on (station, date), where the station
    is the file's stem;
  - a key collision is rolled back and ignored;
  - a counter counts the rows actually inserted;
  - a token that does not parse aborts the run, and rows committed before it
    stay.
- **Yearly statistics** (`src/compute_stats.py`). One grouped query computes,
  per (station, calendar year), three values:
  - the mean of the non-missing maximum temperatures, in °C;
  - the same mean for the minimum temperatures;
  - the sum of the non-missing precipitation, in cm.

  A value is NULL when its group has no non-missing reading. Each result is
  then written into the yearly-stats table: the row with the same key is
  overwritten in place, or a new row is added. A counter counts the results.
- **Tables** (`src/models.py`). An observation holds a mandatory station and
  date and three independently nullable readings. A yearly-stats row holds a
  mandatory station and year and three independently nullable values. Each
  table has a unique constraint: (station, date) for observations and
  (station, year) for yearly stats.

## How the model is laid out

- `wrappers.dfy` (`Wrappers`): `Option` and `Result`.
- `models.dfy` (`Models`):
  - the record types, with a nullable column written as `Option`;
  - calendar validity of a date;
  - the unique constraint as a predicate `UniqueBy` over a table held as a
    sequence of rows in insertion order, with its key set `KeySet`.
- `pytext.dfy` (`PyText`): the Python built-ins the ingestion relies on.
  - `str.strip()` and `str.split()`, over the characters `str.isspace()`
    accepts.
  - `int()` on text: surrounding whitespace, an optional sign, and ASCII
    digits with single underscores between them.
  - Decimal formatting, used as the inverse in round-trip lemmas.
- `ingest.dfy` (`Ingest`):
  - `parse_int`, `parse_date` and the file stem;
  - the per-line decision `ClassifyLine`;
  - the whole run as a function `IngestFiles` over the input files. It classifies every line first, then runs the table's state machine over the outcomes (`IngestOutcomes`, `IngestFileOutcomes`);
  - the table as a class `ObservationStore` whose `Insert` commits or rolls
    back;
  - the job itself as the method `IngestWeatherData`, with the source's
    nested loops. It is proved equal to `IngestFiles`.
- `stats.dfy` (`Stats`):
  - SQL `AVG`/`SUM` as a NULL-skipping scan, proved equal to a reference sum
    and count of the non-missing values;
  - the grouped query `YearlyAggregates`;
  - the update-or-insert `Upsert` and its loop `UpsertAll`;
  - the stats table as a class `StatsStore`;
  - the job itself as the method `ComputeYearlyStats`, with the source's
    loop.

Numbers are exact: readings are `int`, and averages and unit conversions are
`real`.

For example, maximum temperatures of 100, 200 and missing (in tenths of a
degree) give an average maximum of 15.0 °C: the missing reading counts in
neither the sum nor the count (`Stats.MissingReadingIsSkipped`).

## Model

| member | source | states |
|---|---|---|
| Models.DaysInMonth | src/ingest_weather.py:28 | the length of a month in the proleptic Gregorian calendar: 28 to 31 days, and 29 exactly for February of a leap year |
| Models.AppendKeepsUnique | src/models.py:19-21 | adding a row to a table that satisfies its unique constraint keeps the constraint if and only if the row's key is not already present |
| Models.UniqueIffKeyCount | src/models.py:38-40 | a table has no more distinct keys than rows, and satisfies its unique constraint exactly when the two numbers are equal |
| PyText.Strip | src/ingest_weather.py:45 | `strip()` of a line is empty exactly when the line is all whitespace, and otherwise begins and ends with a non-whitespace character |
| PyText.StripSlice | src/ingest_weather.py:45 | the result of `strip()` is a slice of the line with only whitespace before and after it; with `PyText.Strip`, it is the line without its outer whitespace |
| PyText.SplitEmpty | src/ingest_weather.py:49 | `split()` gives no token exactly for an all-whitespace line |
| PyText.SplitTokens | src/ingest_weather.py:49 | every token `split()` gives is non-empty and holds no whitespace |
| PyText.SplitJoin | src/ingest_weather.py:49 | splitting tokens joined by single spaces gives back the same tokens |
| PyText.StripJoin | src/ingest_weather.py:45 | stripping tokens joined by single spaces leaves the text unchanged |
| PyText.DropUnderscores | src/ingest_weather.py:23 | removing the digit-group underscores that `int()` accepts leaves only digits, and leaves an all-digit string unchanged |
| PyText.DropUnderscoresChar | src/ingest_weather.py:23 | a `_` is dropped and every other character is kept |
| PyText.DropUnderscoresAppend | src/ingest_weather.py:23 | removing underscores distributes over concatenation, so with the one-character case the result is the input's other characters in order |
| PyText.PyIntOfFormatInt | src/ingest_weather.py:23 | `int()` reads back every integer from its decimal text, negatives included |
| Ingest.ParseInt | src/ingest_weather.py:21-24 | fails exactly when `int()` fails, reporting the token; otherwise the result is missing exactly when the value is -9999, and is that value in every other case |
| Ingest.ParseIntRoundTrip | src/ingest_weather.py:21-24 | every reading as the file writes it reads back unchanged, and -9999 reads back as missing |
| Ingest.ParseDate | src/ingest_weather.py:27-28 | a successful result is a valid calendar date whose `YYYYMMDD` text is the token; failure reports the token |
| Ingest.ParseDateRoundTrip | src/ingest_weather.py:27-28 | every valid date is read back from its `YYYYMMDD` text |
| Ingest.LastDot | src/ingest_weather.py:41 | finds the last '.' of a file name, or reports that there is none |
| Ingest.StemOfTxt | src/ingest_weather.py:41 | the station id taken from the file `<id>.txt` is `<id>` |
| Ingest.BuildObservation | src/ingest_weather.py:54-62 | the date comes from token 1 and max, min and precip from tokens 2, 3 and 4. The station is the given one. The row holds a valid date and no -9999 reading. The error raised is the first failing token's, in field order |
| Ingest.ClassifyLine | src/ingest_weather.py:45-62 | a line is skipped as blank exactly when it is all whitespace, and as malformed exactly when it does not split into four tokens. A parsed line yields a well-formed observation of the file's station. A parse error arises only on a four-token line |
| Ingest.ClassifyLineBuilds | src/ingest_weather.py:49-62 | a non-blank line of four tokens is parsed exactly when building the observation from those four tokens succeeds. The parsed row is the one built, and the error is the one building raises |
| Ingest.ClassifyFormattedLine | src/ingest_weather.py:44-62 | every well-formed observation, written as a line of its file, is read back as exactly that observation |
| Ingest.IngestOutcomes | src/ingest_weather.py:44-70 | processing a file's lines only appends rows, and the counter grows by exactly the number of rows appended. The table's unique constraint is preserved. A failure keeps the rows committed before it |
| Ingest.IngestFileOutcomes | src/ingest_weather.py:40-70 | the same over all files in order: rows are only appended, the counter equals the number of rows added, and the unique constraint is preserved |
| Ingest.OutcomesFromStation | src/ingest_weather.py:41-62 | every observation parsed from a file's lines is well-formed and carries the station named by the file |
| Ingest.IngestOutcomesAddsFrom | src/ingest_weather.py:56-70 | every row added while processing a file is one of the observations parsed from its lines |
| Ingest.FirstFatal | src/ingest_weather.py:44-62 | finds the first line whose tokens do not parse: every earlier line parses or is skipped, and the line found does not parse |
| Ingest.IngestOutcomesStops | src/ingest_weather.py:44-70 | processing a file's lines fails exactly when some line's tokens do not parse, and then reports the first such line's error |
| Ingest.IngestOutcomesKeys | src/ingest_weather.py:44-70 | afterwards the table holds its earlier keys together with the key of every line parsed before the first error, and no other key |
| Ingest.IngestOutcomesAppend | src/ingest_weather.py:44-70 | processing two stretches of lines is processing the first, then the second unless the first failed |
| Ingest.IngestFileOutcomesConcat | src/ingest_weather.py:40-70 | the loop over files is the loop over all their lines, one file after another |
| Ingest.IngestFilesKeys | src/ingest_weather.py:31-78 | the whole run fails exactly when some line of some file does not parse, with the first such error in glob order. The table ends with its earlier keys together with the key of every line parsed before that error |
| Ingest.IngestFilesAddsWellFormed | src/ingest_weather.py:40-70 | every row a run adds is well-formed (valid date, no -9999 reading) and carries the station of one of the input files |
| Ingest.IngestTwice | src/ingest_weather.py:64-70 | ingesting the same files a second time leaves the table identical, adds 0 to the counter, and stops at the same error if any |
| Ingest.ObservationStore.constructor | src/models.py:19-21 | a new, empty observations table satisfies its unique constraint |
| Ingest.ObservationStore.Insert | src/ingest_weather.py:64-70 | a key already stored leaves the table unchanged and reports no commit; a fresh key appends exactly that row and reports a commit; the unique constraint holds after |
| Ingest.IngestWeatherData | src/ingest_weather.py:31-78 | the nested loops leave the table as `IngestFiles` describes. The result is either the inserted count or the first parse error |
| Stats.AccumulateIsTotal | src/compute_stats.py:30-33 | the scan behind SQL AVG and SUM yields exactly the sum and the count of the column's non-missing values |
| Stats.SqlAvgIsMean | src/compute_stats.py:30-31 | SQL AVG over a column is the arithmetic mean of its non-NULL values, and NULL exactly when it has none |
| Stats.SqlSumIsTotal | src/compute_stats.py:33 | SQL SUM over a column is the total of its non-NULL values, and NULL exactly when it has none |
| Stats.AggregateValues | src/compute_stats.py:30-33 | each group's average maximum and minimum temperature is the mean of the group's non-missing readings divided by 10. Its total precipitation is the sum of its non-missing readings divided by 100. A value is absent exactly when the group has no non-missing reading of that field |
| Stats.MissingReadingIsSkipped | src/compute_stats.py:30 | readings 100, 200 and missing average to 15.0 °C: the missing reading counts in neither the sum nor the count |
| Stats.GroupRows | src/compute_stats.py:23-35 | a group holds exactly the observations of its station and calendar year |
| Stats.GroupRowsCount | src/compute_stats.py:23-35 | a group holds each observation of its (station, year) exactly as many times as the table does, so SUM and AVG see each row once |
| Stats.GroupKeys | src/compute_stats.py:35 | lists each (station, year) of the observations once and no other key |
| Stats.YearlyAggregates | src/compute_stats.py:23-38 | gives exactly one result per distinct (station, year) among the observations and none for any other key. Each result carries its own group's aggregates |
| Stats.FindStats | src/compute_stats.py:43-47 | the lookup finds a row with the requested key, and finds nothing exactly when no row has that key |
| Stats.LookupAt | src/compute_stats.py:43-47 | under the unique constraint, the lookup of any row's key returns that row |
| Stats.OverwriteKeepsKeys | src/compute_stats.py:50-52 | overwriting the three values of a row leaves every row's key in place, so the unique constraint still holds |
| Stats.UpsertKeys | src/compute_stats.py:43-61 | one update-or-insert keeps the unique constraint and adds the group's key to the table's keys. An existing row is overwritten in place with no second row; otherwise exactly one row is appended. No row is deleted or moved |
| Stats.UpsertLookups | src/compute_stats.py:43-61 | afterwards the group's key holds the row built from the key and the three computed values, and every other key holds what it held before |
| Stats.UpsertAllKeys | src/compute_stats.py:42-63 | the loop keeps the unique constraint, adds exactly the results' keys to the table's keys, and never deletes or moves a row |
| Stats.UpsertAllLookups | src/compute_stats.py:42-63 | for results with distinct keys, after the loop every result's key holds that result's values and every other key holds what it held before |
| Stats.UpsertAllTwice | src/compute_stats.py:42-63 | running the update-or-insert loop again over the same results leaves the table identical |
| Stats.YearlyStatsJob | src/compute_stats.py:23-65 | over the whole job, every (station, year) of the observations ends with exactly its group's values. Other rows are untouched and none is deleted. Running the job a second time on the same observations changes nothing |
| Stats.StatsStore.constructor | src/models.py:38-40 | a new, empty yearly-stats table satisfies its unique constraint |
| Stats.StatsStore.Overwrite | src/compute_stats.py:50-52 | overwrites the three values of one row and nothing else; the unique constraint holds after |
| Stats.StatsStore.Add | src/compute_stats.py:54-61 | appends one row whose key was absent; the unique constraint holds after |
| Stats.ComputeYearlyStats | src/compute_stats.py:16-73 | the loop leaves the table as `UpsertAll` of the query results describes, and `upserts` equals the number of distinct (station, year) groups |

## Left out

- Logging and wall-clock timing (`datetime.now`): output only, with no effect on the data.
- The database session, its connection and `close()` are abstracted. A table is a sequence of rows in insertion order, with its unique constraint kept as a proved invariant. A per-row commit is an append, and a rollback is a table left unchanged.
- The surrogate autoincrement `id` columns play no part in either job and are not modelled.
- Directory globbing and file opening: the input is a sequence of (file name, decoded lines) pairs in the order the glob yields them. The model takes whatever names it is given, without the `*.txt` filter, and does not model the text decoding.
- Errors other than a token that does not parse, such as I/O errors or database errors other than a key collision, are not modelled.
- Ingest.ParseDate: accepts exactly tokens of eight ASCII digits that form a valid date. `strptime` also accepts some shorter tokens, since `%m` and `%d` take one digit, and it accepts non-ASCII decimal digits; on those tokens the model fails where the source may succeed.
- PyText.PyInt: non-ASCII decimal digits and Python's limit on the number of digits `int()` converts are not modelled.
- PyText.IsSpace covers the characters `str.isspace()` accepts, but lines are given already decoded, so nothing about encodings is modelled.
- Floating point: averages and unit conversions are exact `real` values, not IEEE doubles, so rounding is not modelled. Overflow of SQLite's 64-bit integer `SUM` is not modelled either.
- Stats.GroupKeyOf uses the date's year directly. SQLite's `CAST(strftime('%Y', date) AS INTEGER)` gives the same number for the years a valid date can hold (1 to 9999).
- Stats.YearlyAggregates lists results in order of first appearance. SQL does not fix the order of a `GROUP BY`. The order changes only where new rows sit in the table, not the value any key ends up with.
- Whether the lookup in the upsert loop sees rows added earlier in the same loop depends on a session setting that is not part of this model. The model lets it see them. The result keys are distinct, so this makes no difference.
- `src/main.py` is not part of this model: application setup, session dependency, and paginated query routes not present in the code.
- `src/schemas.py` (data-transfer classes without behaviour), `src/tests/test_api.py` (HTTP tests) and `create_db.py` (one-off table creation) are not part of this model.
