# FGI export: record normaliser and CSV layout

A Dafny model of the core of `export_fgi.py`, the Fear & Greed Index exporter:

- the loop in `fetch_fgi_api` that turns the raw records of the API's `data`
  list into a table of (date, value) rows: a record with a missing field is
  skipped, the timestamp goes through `int`, its UTC calendar day is taken
  with `datetime.utcfromtimestamp(..).date()`, the value goes through
  `float`, and any exception skips the record;
- the table built from those rows: `drop_duplicates(subset=["date"])`
  (keeping the first row of each date), `sort_values("date")`, and the empty
  table when no record passes;
- the text `update_local_csv` writes: a header naming `date` and `FGI`, and
  one line per row with the date written `YYYY-MM-DD`.

Modules:

- `Options` (`options.dfy`): the `Option` type for an absent field or a failed conversion.
- `Calendar` (`calendar.dfy`): proleptic Gregorian dates and the conversion
  between day numbers (days since 1970-01-01) and dates. `CivilFromDays`
  splits the day count since 0000-03-01 into 400-year eras, centuries,
  4-year groups and years. It is proved against an independent reference:
  the successor function `NextDay` anchored at 1970-01-01 is matched day by
  day. It is also proved against its inverse `DaysFromCivil`, in both directions.
- `PyInt` (`pyint.dfy`): a decoded JSON scalar and Python's `int()` on it.
  `FormatInt` models `str(i)`; `ParseFormatInt` proves `int(str(i)) == i`.
- `Series` (`series.dfy`): the table pipeline over any per-record step.
  It covers collecting the rows of the records that pass, keep-first
  removal of duplicate dates, and insertion sort by date. The pipeline is
  generic in the step, so that its proofs do not see the calendar
  arithmetic.
- `Normaliser` (`normaliser.dfy`): the loop body `Extract` of
  `fetch_fgi_api` and the table `FgiTable` it yields.
- `CsvLayout` (`csv_layout.dfy`): the header and the `YYYY-MM-DD` row
  lines. `ParseDate` reads a written date back.

A row's date is kept as its day number. `pd.to_datetime(day)` gives
midnight of that day, so the order and equality pandas uses for
`drop_duplicates` and `sort_values` are those of day numbers.
`Normaliser.DatetimeDayRange` shows the day number is exactly what the
calendar conversion round-trips.

The value of a record is opaque. `toNumber: V -> Option<N>` stands for
`float(val)`, with `None` where Python raises. `render: N -> string` stands
for pandas' rendering of the float in the CSV.

The code parses the timestamp only as an integer number of epoch seconds
(`export_fgi.py:32`). There is no second attempt that reads it as a
"month-day-year" string.
`Normaliser.FormattedDateIsSkipped` states the consequence: a timestamp
such as `"01-15-2024"` makes its record be skipped. The request asks the
service for `date_format=us` (`export_fgi.py:17`). If the service answers
with formatted dates, every record is skipped this way and the table is
empty.

## Model

| member | source | states |
|---|---|---|
| Calendar.NextDay | export_fgi.py:33 | the day after a valid date is a valid, later date, in the same year or on 1 January of the next |
| Calendar.CivilFromDays | export_fgi.py:33 | every day number names a valid Gregorian date |
| Calendar.EpochIsNewYear1970 | export_fgi.py:33 | day 0 of the epoch is 1970-01-01, both ways |
| Calendar.CivilFromDaysSucc | export_fgi.py:33 | consecutive day numbers give consecutive calendar dates: the conversion agrees with counting days forward one by one from the epoch |
| Calendar.CivilFromDaysMonotone | export_fgi.py:33 | a later day number gives a strictly later date |
| Calendar.CivilFromDaysInjective | export_fgi.py:33 | two day numbers give the same date exactly when they are equal |
| Calendar.DaysFromCivilInverse | export_fgi.py:33-34 | turning a day number into a date and back gives the day number |
| Calendar.CivilFromDaysInverse | export_fgi.py:33-34 | every valid date is the date of the day number computed from it |
| PyInt.ParseInt | export_fgi.py:32 | `int` of a string succeeds exactly when the string is an optional sign followed by one or more ASCII digits |
| PyInt.Truncate | export_fgi.py:32 | `int` of a float rounds toward zero: the result is within 1 of the float and no farther from zero |
| PyInt.IntOf | export_fgi.py:32 | `int` of a JSON boolean is 1 or 0, of an integer that integer, of a float its truncation toward zero, of a string the value of the numeral (failing exactly when it is not one); a list or object never converts |
| PyInt.ParseFormatInt | export_fgi.py:32 | an integer written as decimal text reads back as the same integer |
| PyInt.DigitsValueLeadingZeros | export_fgi.py:32 | a digit string without a leading zero is the decimal text of its own value |
| Normaliser.DayOfTimestamp | export_fgi.py:33 | the UTC day of an epoch second is the day whose 86400 seconds contain it, negative seconds included |
| Normaliser.Extract | export_fgi.py:27-36 | a record is skipped when a field is absent, `int` fails on the timestamp, the day is outside years 1 to 9999, or the value does not convert; otherwise it yields the row of the timestamp's UTC day and the converted value |
| Normaliser.FormattedDateIsSkipped | export_fgi.py:31-32 | under the modelled `int` grammar, a timestamp string with a non-digit after its first character, such as the month-day-year date `"01-15-2024"`, skips the record |
| Normaliser.DatetimeDayRange | export_fgi.py:33 | the accepted day numbers are exactly those whose dates fall in years 1 to 9999, and each such day round-trips through its date |
| Normaliser.SameUtcDaySameDate | export_fgi.py:32-33 | two timestamps within one 86400-second UTC day give the same date |
| Normaliser.LaterTimestampLaterDate | export_fgi.py:32-33 | a later timestamp never gives an earlier date, and one in a later UTC day gives a later date |
| Normaliser.FgiTable | export_fgi.py:25-48 | the table has strictly ascending dates and exactly the UTC days of the records that pass, every day in years 1 to 9999; it is empty exactly when no record passes |
| Normaliser.FgiTableDatesAscend | export_fgi.py:43-44 | read as calendar dates, the table's dates strictly ascend |
| Normaliser.FgiTableKeepsFirst | export_fgi.py:41-43 | a row is in the table exactly when it is the row of the first passing record with its date |
| Series.Collect | export_fgi.py:25-36 | the loop appends at most one row per record |
| Series.CollectRowOrigin | export_fgi.py:26-34 | every row the loop appends is the row of a record that passes |
| Series.DropDuplicateDates | export_fgi.py:43 | the result has each date once, the same set of dates as its input, and only rows of its input |
| Series.Insert | export_fgi.py:44 | inserting a row into a date-sorted sequence keeps it sorted and adds exactly that row |
| Series.SortByDate | export_fgi.py:44 | the result is sorted by date and is a permutation of the input |
| Series.SortByDateStrict | export_fgi.py:43-44 | sorting rows with distinct dates gives strictly ascending dates |
| Series.Normalise | export_fgi.py:38-46 | the table has strictly ascending dates, exactly the dates of the passing records, and is empty exactly when no record passes |
| Series.CollectValidStamps | export_fgi.py:26-36 | the rows the loop collects carry exactly the dates of the passing records |
| Series.CollectAppend | export_fgi.py:26-36 | the loop processes records one at a time: the rows of two batches are the rows of the first followed by those of the second |
| Series.NoValidRecord | export_fgi.py:38-39 | no date is collected exactly when no record passes |
| Series.SkippedRecordIsInert | export_fgi.py:29-36 | a record that is skipped, wherever it sits, leaves the table as if it were not there: the loop carries on |
| Series.DedupKeepsFirst | export_fgi.py:41-43 | after duplicate removal a row remains exactly when it is the row of the first passing record with its date |
| Series.NormaliseKeepsFirst | export_fgi.py:41-44 | a row is in the table exactly when it is the row of the first passing record with its date |
| Series.NormaliseRowOrigin | export_fgi.py:26-46 | every row of the table is the row of some record: nothing is invented |
| CsvLayout.PadDigitsValue | export_fgi.py:60 | zero padding to a width the number fits in keeps its value |
| CsvLayout.FormatDate | export_fgi.py:60 | a date is written in ten characters, with `-` at positions 4 and 7 |
| CsvLayout.ParseFormatDate | export_fgi.py:60 | a date written `YYYY-MM-DD` reads back as the same date |
| CsvLayout.RowLine | export_fgi.py:60 | a row's line is its date, which reads back as the row's date, then a comma, then the rendered value |
| CsvLayout.CsvLines | export_fgi.py:55-60 | the file has the header `date,FGI` and one more line per row, each holding that row's date and value |
| CsvLayout.CsvDatesAscend | export_fgi.py:44-60 | the dates of a table sorted by date read back from its lines in strictly ascending order |
| CsvLayout.FgiCsvLayout | export_fgi.py:55-60 | for any response, the file starts with the header, holds only the header exactly when no record passes, and its dates strictly ascend line by line |

## Left out

- The HTTP request, the status check and the JSON decoding (`export_fgi.py:16-24`) are network I/O and library calls. The model starts from the decoded list of records.
- The catch-all handler (`export_fgi.py:49-51`) turns any failure outside the per-record `try` (lines 31-36) into an empty table. One such failure is an entry of `data` that is not an object: its `.get` at line 27 raises before that `try`. Records are modelled as objects, so this path is not modelled.
- `float(val)`, `astype(float)` and the CSV rendering of the number are not modelled. They are the abstract parameters `toNumber` and `render`, so floating point stays out of the proofs.
- PyInt.ParseInt: accepts only an optional sign followed by ASCII digits. Python's `int` also allows surrounding whitespace, underscores between digits and non-ASCII digits, which the model treats as failures.
- PyInt.IntOf: treats a JSON float as a mathematical real. It does not model binary floating point, NaN or infinity, which strict JSON does not carry.
- Normaliser.Extract: bounds the day by the years `datetime` represents (1 to 9999). Narrower platform limits of `utcfromtimestamp`, and the nanosecond range of `pd.to_datetime` (years 1677 to 2262), are not modelled.
- The `set_index("date")` step and `astype(float)` (`export_fgi.py:45-47`) change the table's representation, not its rows, and are not modelled separately.
- The stability of pandas' sort is left out: once duplicate dates are gone it does not affect the result.
- Writing the file, the fixed file name, the line terminator, the console messages and the `__main__` entry point (`export_fgi.py:57-65`) are left out. The model gives the lines of the file.
- CsvLayout.FormatDate: always writes a four-digit, zero-padded year. Because Normaliser.Extract admits every year from 1 to 9999, the model can hold and write rows for years 1 to 1677 and 2262 to 9999. There `pd.to_datetime` raises in the source, which skips the record, so no such row is written. For years 1 to 999, pandas would also write the year without padding. Both differences lie outside the nanosecond range, which the model does not bound.
