# max-stats: snapshot numbering, derived columns and the completeness audit

This project models the core of `main.py` in max-stats, a small tool that scrapes the SNCF
"Max Jeune" seat-availability dataset once a day and audits the scrapes. It has three parts:

- **Snapshot numbering** (`download_maxjeune`, module `Download`). The stems of the existing
  `data/maxjeune/*.csv` files are read with Python's `int()`. The new file is `1.csv` in an
  empty folder; otherwise its number is one more than the largest existing number. The table
  fetched from upstream is stamped with the current time in a `request_date` column and written
  under that number. A stem that is not an integer raises `ValueError`, and then nothing is
  written. The folder is a class (`SnapshotFolder`) whose file list the `Download` method extends.
  Python's `int()` and `f"{n}"` are modelled in `PyInt`.
- **The scan** (`scan_csv`, module `Scan`). All snapshot files are read as one relation. Each
  row is tagged with its file's path. The `HH:MM` departure and arrival times are parsed.
  `has_seat` is derived from the availability text, and `days_to_trip` from the trip date and
  the request timestamp.
- **The completeness audit** (`has_missing_requests`, module `MissingRequests`). The
  `(file_path, request_date)` pairs are deduplicated, sorted by time and reduced to calendar
  days. The audit counts the places where two consecutive scrape days are more than one day
  apart. It reports that gap count, the number of distinct scrape days, and the first and last
  day.

`Tables` holds the shared entities: days, microsecond timestamps, upstream rows, stamped rows,
CSV files and their paths. `Sorting` holds a key-sorting function and the fact that all sorted
orders of the same elements agree on their keys. `Wrappers` holds `Option` and `Result`.

Conventions chosen for polars:

- A `Datetime` is an integer count of microseconds since the epoch, with no time zone. A `Date`
  is an integer count of days.
- `.dt.date()` is floor division by the length of a day.
- `Date - Datetime` takes the date at midnight. `.dt.total_days()` truncates toward zero.
- Comparing a null cell with `"OUI"` gives null.

Two places where the code does something other than what one would expect; the model follows
the code:

- `days_to_trip` reads like the calendar difference `date - request_date.date()`, but is one
  less whenever the trip lies ahead and the request was not made exactly at midnight.
  `Scan.DaysToTripCalendar` states the exact relation.
- Snapshot numbers are meant to be positive, but the code accepts any stem `int()` reads,
  including `-3`, and then allocates `-2` (`Download.NegativeStem`). The next number is positive
  whenever every stem is non-negative (`Download.NextIsPositive`).

Python's `int()` strips white space at both ends, but not every character `str.isspace`
accepts: below U+007F it strips only space, tab, line feed, vertical tab, form feed and
carriage return, so the separators U+001C to U+001F make it fail (`PyInt.ParseSeparators`).

Some operations are defined by a function without a contract of its own; the lemmas in their
rows say what they compute:

- `PyInt.ParseInt` (`int()`): `ParseShow`, `ParseAlphabet`, `LeadingSpace`, `TrailingSpace`
  and the accept and reject examples.
- `Download.NextFileNumber` (the allocation, main.py:43-47): `AllocationOk`,
  `AllocationError`, `AllocationBound`, `AllocationAttained`, `NoCollision`,
  `ListingOrderIrrelevant`.
- `Scan.DaysToTrip`: `DaysToTripCalendar`, `DaysToTripMonotone`.
- `MissingRequests.GapCount`: `GapsAreAdjacentJumps`, `GapsAreGapStarts`, `NoGapIffConsecutive`,
  `GapBounds`.
- `MissingRequests.DistinctDays`: `DistinctAscending`, `GapBounds`.
- `Tables.RequestsOf`: `RequestsOfMembers`, `Scan.ScanTagsFilePaths`.

## Model

| member | source | states |
|---|---|---|
| PyInt.ParseShow | main.py:43-47 | reading back the decimal form `f"{n}"` with `int()` gives `n`, for every integer, negative ones included |
| PyInt.ShowInjective | main.py:47 | two different numbers never get the same file name |
| PyInt.LeadingSpace | main.py:43 | `int()` ignores a white-space character in front of a stem |
| PyInt.TrailingSpace | main.py:43 | `int()` ignores a white-space character after a stem |
| PyInt.ParseAccepts | main.py:43 | `int()` accepts underscores between digits, a `+` or `-` sign, `-0`, and surrounding white space |
| PyInt.ParseRejects | main.py:43 | the empty stem, a blank stem, a doubled underscore and an underscore at either end make `int()` fail |
| PyInt.ParseSeparators | main.py:43 | a stem with an information separator (U+001C to U+001F) before or after the digits makes `int()` fail; a leading no-break space is stripped |
| PyInt.ParseAlphabet | main.py:43 | every stem `int()` accepts consists of digits, white space, signs and underscores, and holds at least one digit |
| PyInt.ScanAlphabet | main.py:43 | what a reading from any position accepts uses only those characters, and holds a digit unless one was read before |
| PyInt.Show | main.py:47 | `f"{n}"` is never empty, does not start with white space, and ends with a digit |
| PyInt.ParseRejectsText | main.py:43 | a space after the sign or between digits, and a non-numeric stem such as `backup`, make `int()` fail |
| Download.ReadAll | main.py:43 | the generator succeeds exactly when every stem reads. It then gives one value per stem, in order. Otherwise it stops at the first stem that does not read |
| Download.MaxOf | main.py:43-47 | the result is one of the numbers and is at least every one of them |
| Download.NextNumber | main.py:44-47 | 1 when there are no numbers; otherwise one more than an existing number, and greater than all of them |
| Download.SortedLastIsMax | main.py:43-47 | the last element of `sorted(file_numbers)` is the largest number |
| Download.AllocationOk | main.py:43 | allocation succeeds if and only if every stem is an integer |
| Download.AllocationError | main.py:43 | a failed allocation names the first stem in listing order that `int()` rejects |
| Download.AllocationBound | main.py:43-47 | every existing stem reads as a number smaller than the allocated one |
| Download.AllocationAttained | main.py:44-47 | the allocation is 1 in an empty folder; otherwise some stem reads as exactly one less than it (it is max + 1) |
| Download.ReadAllTop | main.py:47 | some element reads as the largest value read |
| Download.NoCollision | main.py:45-50 | the name of the allocated file is not the stem of any existing file |
| Download.NextAfterWrite | main.py:43-50 | once file `n` is added, the next allocation is `n + 1` |
| Download.ReadAppend | main.py:43 | reading one more stem appends its value to the values read |
| Download.NextNumberAppend | main.py:44-47 | adding the next number itself moves the next number on by one |
| Download.ListingOrderIrrelevant | main.py:43 | two listings with the same stems, in any order and with any repetition, both fail or both give the same number |
| Download.SameElementsSameNext | main.py:43-47 | the next number depends only on the set of existing numbers |
| Download.NextIsPositive | main.py:43-47 | when every stem is a non-negative integer, allocation succeeds with a number of at least 1 |
| Download.NoGapFilling | main.py:43-47 | with `1`, `2` and `5` present, listed in either order, the next number is 6 and the gap at 3 and 4 is not filled |
| Download.NegativeStem | main.py:43-47 | a folder holding only `-3.csv` gets `-2.csv` next |
| Download.FirstFile | main.py:44-45 | an empty folder gets `data/maxjeune/1.csv` |
| Download.StemsOf | main.py:43 | the stems of the files, one per file, in listing order |
| Download.SnapshotFolder.constructor | main.py:40-41 | the folder as found, with distinct stems |
| Download.SnapshotFolder.Download | main.py:40-50 | the result is the allocation over the stems present. On success exactly one file is appended, named `f"{n}"`, holding the fetched rows stamped with `now`, and the stems stay distinct. On failure the folder is unchanged |
| Tables.DayOf | main.py:67-74 | `.dt.date()`: the day whose 24-hour window contains the timestamp |
| Tables.DayOfUnique | main.py:67-74 | that day is the only day whose window contains the timestamp |
| Tables.DayOfMonotone | main.py:67 | a later timestamp never falls on an earlier day |
| Tables.PathOf | main.py:22-24 | the reported path is `data/maxjeune/`, then exactly the stem, then `.csv` |
| Tables.PathOfInjective | main.py:24 | different files are reported under different paths |
| Tables.Stamp | main.py:49 | every fetched row is kept, in order, and gets the same `request_date` |
| Tables.FileRequests | main.py:24 | the `(file_path, request_date)` pairs of one file's rows, in order |
| Tables.RequestsOfMembers | main.py:24 | the pairs of all files are exactly the pairs some row of some file carries, with that file's path |
| Scan.ParseHourMinute | main.py:26-27 | an accepted text gives a valid time of day (hour below 24, minute below 60) |
| Scan.FormatHourMinute | main.py:26-27 | the `HH:MM` text of a time is five characters long |
| Scan.ParseFormat | main.py:26-27 | every valid time is read back from its `HH:MM` text |
| Scan.FormatParse | main.py:26-27 | every accepted text is the zero-padded `HH:MM` text of the time it gives |
| Scan.HasSeat | main.py:28 | `has_seat` is true exactly when the text is `"OUI"` and null exactly when the cell is null; any other text gives false |
| Scan.TotalDays | main.py:29 | whole days of a duration, truncated toward zero, for both signs |
| Scan.DaysToTripCalendar | main.py:29 | `days_to_trip` is the calendar difference minus one when the trip is ahead and the request was not made at midnight, and equals it otherwise |
| Scan.DaysToTripMonotone | main.py:29 | for a fixed request time, a later trip day never has fewer days to go |
| Scan.DaysToTripExample | main.py:29 | a trip ten days after a midnight request is 10 days away; after a 14:00 request it is 9 |
| Scan.ConvertTime | main.py:26-27 | a null cell stays null. A cell converts exactly when it is a valid `HH:MM` text, to the time whose text it is. Otherwise the error names the column and the text, with the file path the model adds to locate the cell |
| Scan.DeriveRow | main.py:24-29 | a row converts exactly when both time cells do. It keeps its own columns and is tagged with the file's path. Each parsed time is the valid time whose `HH:MM` text the cell holds, and a null cell stays null. It has `has_seat` and `days_to_trip` as defined. A failure is a time conversion error carrying the path the model adds |
| Scan.ScanRows | main.py:21-30 | a file's rows convert exactly when each row does, one derived row per input row, in order |
| Scan.ReadEach | main.py:21-30 | reading the files one after the other succeeds exactly when every file reads |
| Scan.ReadEachAt | main.py:21-30 | result `i` of file `k` sits right after the results of the files before `k` |
| Scan.OffsetIsBefore | main.py:21-30 | the position of a file's first row counts the input rows of the files before it |
| Scan.ReadFilesRows | main.py:21-30 | the files read succeed exactly when every row converts; row `i` of file `k` is then at position `Offset(files, k) + i`, derived from that row and tagged with that file's path |
| Scan.ScanCsv | main.py:21-30 | the scan fails when the glob matches no file. Otherwise it succeeds exactly when every row of every file converts. It then has as many rows as all files together, and row `i` of file `k`, at position `Offset(files, k) + i`, is that input row derived and tagged with its file's path |
| Scan.Project | main.py:60 | the `(file_path, request_date)` projection, row by row |
| Scan.ProjectAppend | main.py:60 | projecting a concatenation gives the concatenation of the projections |
| Scan.ProjectFile | main.py:24 | projecting one scanned file gives that file's path beside each row's timestamp |
| Scan.ScanTagsFilePaths | main.py:21-30 | over all files, the projected scan pairs each row's timestamp with the path of the file it came from |
| MissingRequests.Unique | main.py:61 | no pair occurs twice, and exactly the pairs of the input remain |
| MissingRequests.Requests | main.py:58-64 | each input pair exactly once, and in ascending `request_date` order |
| MissingRequests.SameInstantDifferentFiles | main.py:61 | two files scraped at the same instant both stay, as two requests |
| MissingRequests.TieOrderIrrelevant | main.py:61-62 | every duplicate-free, time-sorted arrangement of the same pairs has the same sequence of timestamps |
| MissingRequests.SameElementsSameMultiset | main.py:61-62 | two duplicate-free sequences with the same elements are reorderings of each other |
| MissingRequests.ReorderNoDuplicates | main.py:61-62 | sorting keeps the pairs free of duplicates |
| MissingRequests.RequestDays | main.py:67 | `.dt.date()` of each request, position by position |
| MissingRequests.RequestDaysAscending | main.py:62-67 | requests sorted by time fall on days in calendar order |
| MissingRequests.DayDiffs | main.py:67 | `.diff().drop_nulls()`: one difference fewer than the number of days, each the step from one day to the next |
| MissingRequests.CountAbove | main.py:68-69 | the count never exceeds the number of values |
| MissingRequests.CountAboveIsCardinality | main.py:68-69 | the count is the number of positions whose value exceeds the threshold |
| MissingRequests.GapsAreAdjacentJumps | main.py:66-71 | the gap count is the number of adjacent day pairs more than one day apart, so a multi-day jump counts once |
| MissingRequests.CountAboveZero | main.py:68-69 | nothing is counted exactly when no value exceeds the threshold |
| MissingRequests.NoGapIffConsecutive | main.py:66-71 | there is no gap exactly when each scrape day is at most one day after the previous one, and so always with a single scrape |
| MissingRequests.GapsAreGapStarts | main.py:66-71 | over ascending days, the gap count is the number of scrape days before the last whose next calendar day has no scrape, so it depends only on the set of days |
| MissingRequests.NextDayStarts | main.py:66-71 | a scrape on the day after the last one leaves the gap starts unchanged |
| MissingRequests.LaterDayStarts | main.py:66-71 | a scrape two or more days after the last one adds the last day as one more gap start |
| MissingRequests.DistinctAscending | main.py:72 | over ascending days, the distinct days are the first one plus one per strict step |
| MissingRequests.GapBounds | main.py:66-72 | over ascending days, gaps are at most the distinct days less one, and at most the calendar days missing between the first and the last day |
| MissingRequests.MinDay | main.py:73 | null exactly for no days; otherwise a day present and at most every day |
| MissingRequests.MaxDay | main.py:74 | null exactly for no days; otherwise a day present and at least every day |
| MissingRequests.FirstLast | main.py:62-74 | on days in calendar order the minimum is the first day and the maximum the last |
| MissingRequests.HasMissingRequests | main.py:56-80 | the whole report. First and last day are null exactly when there are no rows; otherwise they bound every row's day, are attained, and are in order. The day count is the number of distinct days. The gap count, the value returned, is the number of scrape days before the last whose next calendar day has no scrape. It is at most the day count less one, and at most the calendar days missing in between |
| MissingRequests.Audit | main.py:56-80 | the audit fails exactly when the folder has no file. Otherwise it is the report on the `(file_path, request_date)` pairs of all the files' rows, whether or not their time-of-day cells can be read, since the query reads only those two columns; where the full scan succeeds, the report on its projection is the same |
| MissingRequests.PushdownAgrees | main.py:58-60 | whenever the full scan succeeds, its projection onto `file_path` and `request_date` is exactly the pairs the files store |
| MissingRequests.UnreadTimeIgnored | main.py:56-80 | a file whose one row has the departure time `7h05` makes the full scan fail, but the audit reports one day, no gap, first and last day the scrape day |
| MissingRequests.SingleRequest | main.py:66-74 | a single request gives one scrape day, no gap, and its day as first and last day |
| MissingRequests.HeaderOnlyFiles | main.py:56-80 | files that hold no rows give the empty report: zero days, zero gaps, no first or last day |
| MissingRequests.OneRequestPerDownload | main.py:61 | a file written by one download contributes exactly one request, its path with the download time |
| MissingRequests.GapExample | main.py:66-72 | days `d, d+1, d+2, d+5, d+6` have one gap though two days are missing, and five distinct days |
| MissingRequests.ConsecutiveExample | main.py:66-71 | days `d, d+1, d+2` have no gap |
| MissingRequests.AuditExample | main.py:56-80 | five files scraped at 06:00 on days `d, d+1, d+2, d+5, d+6` report five days, one gap, from `d` to `d+6` |
| Sorting.SortBy | main.py:62 | the result is sorted by the key and is a permutation of the input |
| Sorting.Insert | main.py:62 | inserting into a sorted sequence keeps it sorted and adds exactly that element |
| Sorting.SortedKeysAgree | main.py:62 | two sorted orders of the same elements have the same key at every position |
| Sorting.AscendingUnique | main.py:62 | a multiset of integers has exactly one ascending arrangement |
| Sorting.MultisetKeys | main.py:62 | two orders of the same elements carry the same keys, counted with multiplicity |

## Left out

- HTTP fetch: `pl.read_csv` of the upstream URL (main.py:49) is network I/O. The fetched table is a parameter of `Download`.
- The clock: `datetime.now()` (main.py:49) is ambient time and is a parameter.
- Disk access: directory creation, globbing and CSV writing (main.py:22, 41, 43, 50) are modelled by the `SnapshotFolder` file list and the sequence of stems a listing gives. The glob's own filtering of names is not modelled, and the new file takes its place at the end of the list.
- CSV parsing and the schema overrides (main.py:9-14, 21-23): the rows are already typed values. The columns no rule reads are kept as opaque cells.
- polars' lazy evaluation and `collect()` (main.py:21, 63): only the logical result is modelled. The failure of a glob that matches no file is modelled as `Scan.NoFiles`; whether polars raises it when the scan is built or at `collect()` makes no difference to the audit. Projection pushdown is modelled in `MissingRequests.Audit`, which reads only the two selected columns, so the time conversions cannot make it fail.
- Tie order: polars may order requests with equal timestamps, and the survivors of `unique`, in any way. The model fixes one order, and `MissingRequests.TieOrderIrrelevant` shows that nothing computed depends on it.
- PyInt.ParseInt: accepts only ASCII digits. Python's `int()` also accepts other Unicode decimal digits, and refuses literals over 4300 digits.
- Scan.ParseHourMinute: accepts exactly zero-padded `HH:MM` with no seconds. Any leniency of polars' `str.to_time` beyond that is a library matter not modelled.
- Integer width: polars stores dates, timestamps and durations as 64-bit integers. The model uses unbounded integers, so overflow, which is far outside realistic dates, is not modelled.
- Null `date` or `request_date` cells are not modelled. Every row has both.
- The typer CLI wiring and the printed messages (main.py:4, 16, 33, 52, 55, 76-79, 83-84) are presentation only. The audit's printed figures are the fields of `MissingRequests.Report`, and its return value is `timeDiffs`.
- Download.NextNumber: is defined through the maximum rather than as the last element of a sorted list. `Download.SortedLastIsMax` shows that the two agree.
