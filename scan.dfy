/** `scan_csv`: every snapshot file read as one relation, each row tagged with the path of
    its file and given the derived columns `heure_depart`/`heure_arrivee` (parsed times of day),
    `has_seat` and `days_to_trip`. */
module Scan {
  import opened Wrappers
  import opened Tables
  import PyInt

  /** A polars `Time` at minute precision. */
  datatype Time = Time(hour: nat, minute: nat)

  predicate ValidTime(t: Time)
  {
    t.hour < 24 && t.minute < 60
  }

  function TwoDigitValue(a: char, b: char): nat
    requires PyInt.IsDigit(a) && PyInt.IsDigit(b)
  {
    10 * PyInt.DigitValue(a) + PyInt.DigitValue(b)
  }

  /** `str.to_time("%H:%M")` on one cell: two-digit hour below 24, a colon, two-digit minute
      below 60; anything else is not a time. */
  function ParseHourMinute(s: string): (r: Option<Time>)
    ensures r.Some? ==> ValidTime(r.value)
  {
    if |s| == 5 && PyInt.IsDigit(s[0]) && PyInt.IsDigit(s[1]) && s[2] == ':'
       && PyInt.IsDigit(s[3]) && PyInt.IsDigit(s[4])
       && TwoDigitValue(s[0], s[1]) < 24 && TwoDigitValue(s[3], s[4]) < 60
    then Some(Time(TwoDigitValue(s[0], s[1]), TwoDigitValue(s[3], s[4])))
    else None
  }

  /** The `HH:MM` text of a time of day, zero-padded. */
  function FormatHourMinute(t: Time): (s: string)
    requires ValidTime(t)
    ensures |s| == 5
  {
    [PyInt.DigitChar(t.hour / 10), PyInt.DigitChar(t.hour % 10), ':',
     PyInt.DigitChar(t.minute / 10), PyInt.DigitChar(t.minute % 10)]
  }

  /** Every time of day is read back from its `HH:MM` text. */
  lemma ParseFormat(t: Time)
    requires ValidTime(t)
    ensures ParseHourMinute(FormatHourMinute(t)) == Some(t)
  {
  }

  /** Every accepted text is the `HH:MM` text of the time it gives: the parser accepts
      exactly the zero-padded forms and nothing else. */
  lemma FormatParse(s: string)
    requires ParseHourMinute(s).Some?
    ensures FormatHourMinute(ParseHourMinute(s).value) == s
  {
    var t := ParseHourMinute(s).value;
    var f := FormatHourMinute(t);
    assert f[0] == s[0] && f[1] == s[1] && f[3] == s[3] && f[4] == s[4];
  }

  /** `has_seat = od_happy_card == "OUI"`; a null cell compares to null. */
  function HasSeat(odHappyCard: Option<string>): (r: Option<bool>)
    ensures r.None? <==> odHappyCard.None?
    ensures r == Some(true) <==> odHappyCard == Some("OUI")
  {
    match odHappyCard
    case None => None
    case Some(text) => Some(text == "OUI")
  }

  /** `.dt.total_days()` of a duration in microseconds: whole days, the fraction dropped
      toward zero. */
  function TotalDays(micros: int): (days: int)
    ensures micros >= 0 ==> days >= 0 && days * MicrosPerDay <= micros < (days + 1) * MicrosPerDay
    ensures micros < 0 ==> days <= 0 && (days - 1) * MicrosPerDay < micros <= days * MicrosPerDay
  {
    if micros >= 0 then micros / MicrosPerDay else -((-micros) / MicrosPerDay)
  }

  /** `days_to_trip = (date - request_date).dt.total_days()`: the trip day is taken at
      midnight, and the duration from the request to it is cut to whole days. */
  function DaysToTrip(date: Day, requestDate: Timestamp): int
  {
    TotalDays(date * MicrosPerDay - requestDate)
  }

  /** How `days_to_trip` relates to the calendar difference `date - request_date.date()`: one
      less when the trip lies ahead and the request was not made exactly at midnight, equal
      otherwise. */
  lemma DaysToTripCalendar(date: Day, requestDate: Timestamp)
    ensures DaysToTrip(date, requestDate) ==
      date - DayOf(requestDate)
      - (if date * MicrosPerDay > requestDate && requestDate != DayOf(requestDate) * MicrosPerDay then 1 else 0)
  {
    var k := DayOf(requestDate);
    var rem := requestDate - k * MicrosPerDay;
    var micros := date * MicrosPerDay - requestDate;
    assert micros == (date - k) * MicrosPerDay - rem;
    var r := DaysToTrip(date, requestDate);
    if micros >= 0 && rem > 0 {
      assert r * MicrosPerDay <= micros < (r + 1) * MicrosPerDay;
      assert r == date - k - 1;
    } else {
      assert r == date - k;
    }
  }

  /** For a fixed request time, a later trip day never has fewer days to go. */
  lemma DaysToTripMonotone(d1: Day, d2: Day, requestDate: Timestamp)
    requires d1 <= d2
    ensures DaysToTrip(d1, requestDate) <= DaysToTrip(d2, requestDate)
  {
    DaysToTripCalendar(d1, requestDate);
    DaysToTripCalendar(d2, requestDate);
  }

  /** A trip ten days after a request made at midnight is ten days away; after a request made
      at 14:00 it is nine. */
  lemma DaysToTripExample(d: Day)
    ensures DaysToTrip(d + 10, d * MicrosPerDay) == 10
    ensures DaysToTrip(d + 10, d * MicrosPerDay + 14 * 3_600_000_000) == 9
  {
  }

  /** A row of the scanned relation. */
  datatype Row = Row(
    filePath: string,
    date: Day,
    heureDepart: Option<Time>,
    heureArrivee: Option<Time>,
    odHappyCard: Option<string>,
    others: seq<Option<string>>,
    requestDate: Timestamp,
    hasSeat: Option<bool>,
    daysToTrip: int)

  /** Why `scan_csv(...).collect()` raises: a strict `to_time` conversion met a cell it cannot
      read, or the glob matched no file at all. polars' own message names the column and the
      failing text; the file path is recorded here only to locate the cell in the model. */
  datatype ScanError =
    | TimeConversion(filePath: string, column: string, text: string)
    | NoFiles

  /** One time-of-day cell converted; a null stays null. */
  function ConvertTime(path: string, column: string, cell: Option<string>): (r: Result<Option<Time>, ScanError>)
    ensures r.Ok? <==> (cell.Some? ==> ParseHourMinute(cell.value).Some?)
    ensures r.Ok? ==> (r.value.Some? <==> cell.Some?)
    ensures r.Ok? && cell.Some? ==>
      ValidTime(r.value.value) && FormatHourMinute(r.value.value) == cell.value
    ensures r.Err? ==> r.error == TimeConversion(path, column, cell.value)
  {
    match cell
    case None => Ok(None)
    case Some(text) =>
      match ParseHourMinute(text)
      case None => Err(TimeConversion(path, column, text))
      case Some(t) =>
        FormatParse(text);
        Ok(Some(t))
  }

  /** The cells of a row all convert. */
  predicate RowConverts(r: SnapshotRow)
  {
    (r.row.heureDepart.Some? ==> ParseHourMinute(r.row.heureDepart.value).Some?) &&
    (r.row.heureArrivee.Some? ==> ParseHourMinute(r.row.heureArrivee.value).Some?)
  }

  /** One row of file `path` with its derived columns. */
  function DeriveRow(path: string, r: SnapshotRow): (out: Result<Row, ScanError>)
    ensures out.Ok? <==> RowConverts(r)
    ensures out.Ok? ==>
      && out.value.filePath == path
      && out.value.date == r.row.date
      && out.value.requestDate == r.requestDate
      && out.value.odHappyCard == r.row.odHappyCard
      && out.value.others == r.row.others
      && out.value.hasSeat == HasSeat(r.row.odHappyCard)
      && out.value.daysToTrip == DaysToTrip(r.row.date, r.requestDate)
      && (out.value.heureDepart.Some? <==> r.row.heureDepart.Some?)
      && (out.value.heureArrivee.Some? <==> r.row.heureArrivee.Some?)
      && (out.value.heureDepart.Some? ==>
            ValidTime(out.value.heureDepart.value) &&
            FormatHourMinute(out.value.heureDepart.value) == r.row.heureDepart.value)
      && (out.value.heureArrivee.Some? ==>
            ValidTime(out.value.heureArrivee.value) &&
            FormatHourMinute(out.value.heureArrivee.value) == r.row.heureArrivee.value)
    ensures out.Err? ==> out.error.TimeConversion? && out.error.filePath == path
  {
    match ConvertTime(path, "heure_depart", r.row.heureDepart)
    case Err(e) => Err(e)
    case Ok(departure) =>
      match ConvertTime(path, "heure_arrivee", r.row.heureArrivee)
      case Err(e) => Err(e)
      case Ok(arrival) =>
        Ok(Row(path, r.row.date, departure, arrival, r.row.odHappyCard, r.row.others,
               r.requestDate, HasSeat(r.row.odHappyCard), DaysToTrip(r.row.date, r.requestDate)))
  }

  /** The rows of one file, in order, each derived and tagged with the file's path. */
  function ScanRows(path: string, rows: seq<SnapshotRow>): (r: Result<seq<Row>, ScanError>)
    ensures r.Ok? <==> forall i :: 0 <= i < |rows| ==> RowConverts(rows[i])
    ensures r.Ok? ==> |r.value| == |rows|
    ensures r.Ok? ==> forall i :: 0 <= i < |rows| ==> DeriveRow(path, rows[i]) == Ok(r.value[i])
  {
    if rows == [] then Ok([])
    else
      match DeriveRow(path, rows[0])
      case Err(e) => Err(e)
      case Ok(first) =>
        match ScanRows(path, rows[1..])
        case Err(e) =>
          assert !RowConverts(rows[1..][0]) || exists i :: 0 <= i < |rows[1..]| && !RowConverts(rows[1..][i]);
          Err(e)
        case Ok(rest) =>
          assert forall i :: 1 <= i < |rows| ==> rows[i] == rows[1..][i - 1];
          Ok([first] + rest)
  }

  /** Every row of every file converts. */
  predicate AllConvert(files: seq<CsvFile>)
  {
    forall k, i :: 0 <= k < |files| && 0 <= i < |files[k].rows| ==> RowConverts(files[k].rows[i])
  }

  /** The results of `f` on each element in turn, concatenated; the first element `f` fails
      on fails the whole read. */
  function ReadEach<A, R, E>(xs: seq<A>, f: A -> Result<seq<R>, E>): (r: Result<seq<R>, E>)
    ensures r.Ok? <==> forall k :: 0 <= k < |xs| ==> f(xs[k]).Ok?
  {
    if xs == [] then Ok([])
    else
      match f(xs[0])
      case Err(e) => Err(e)
      case Ok(first) =>
        assert forall k :: 1 <= k < |xs| ==> xs[k] == xs[1..][k - 1];
        match ReadEach(xs[1..], f)
        case Err(e) => Err(e)
        case Ok(rest) => Ok(first + rest)
  }

  /** How many results `f` gives on the elements before position `k`. */
  function Before<A, R, E>(xs: seq<A>, f: A -> Result<seq<R>, E>, k: nat): nat
    requires k <= |xs| && forall j :: 0 <= j < k ==> f(xs[j]).Ok?
  {
    if k == 0 then 0
    else
      assert forall j :: 0 <= j < k - 1 ==> xs[1..][j] == xs[j + 1];
      |f(xs[0]).value| + Before(xs[1..], f, k - 1)
  }

  /** Result `i` of element `k` sits at position `Before(xs, f, k) + i` of the read, and the
      read holds nothing after the last element's results. */
  lemma {:induction false} ReadEachAt<A, R, E>(xs: seq<A>, f: A -> Result<seq<R>, E>, k: nat, i: nat)
    requires ReadEach(xs, f).Ok? && k < |xs| && i < |f(xs[k]).value|
    ensures Before(xs, f, k) + i < |ReadEach(xs, f).value|
    ensures ReadEach(xs, f).value[Before(xs, f, k) + i] == f(xs[k]).value[i]
  {
    assert f(xs[0]).Ok?;
    var first, rest := f(xs[0]).value, ReadEach(xs[1..], f).value;
    assert ReadEach(xs, f).value == first + rest;
    if k > 0 {
      assert xs[k] == xs[1..][k - 1];
      ReadEachAt(xs[1..], f, k - 1, i);
    }
  }

  lemma {:induction false} ReadEachLength<A, R, E>(xs: seq<A>, f: A -> Result<seq<R>, E>)
    requires ReadEach(xs, f).Ok?
    ensures |ReadEach(xs, f).value| == Before(xs, f, |xs|)
  {
    if xs != [] {
      assert f(xs[0]).Ok?;
      ReadEachLength(xs[1..], f);
    }
  }

  /** One file's rows, derived and tagged with its path. */
  function ScanFile(f: CsvFile): Result<seq<Row>, ScanError>
  {
    ScanRows(PathOf(f.stem), f.rows)
  }

  /** The number of rows in the files before file `k`. */
  function Offset(files: seq<CsvFile>, k: nat): nat
    requires k <= |files|
  {
    if k == 0 then 0 else |files[0].rows| + Offset(files[1..], k - 1)
  }

  /** A file's scan has one row per row of the file, so positions count input rows. */
  lemma {:induction false} OffsetIsBefore(files: seq<CsvFile>, k: nat)
    requires k <= |files| && forall j :: 0 <= j < k ==> ScanFile(files[j]).Ok?
    ensures Offset(files, k) == Before(files, ScanFile, k)
  {
    if k > 0 {
      assert forall j :: 0 <= j < k - 1 ==> files[1..][j] == files[j + 1];
      OffsetIsBefore(files[1..], k - 1);
    }
  }

  /** Position `Offset(files, k) + i` of `rows` holds row `i` of file `k`, derived and tagged
      with that file's path. */
  predicate DerivedAt(files: seq<CsvFile>, k: nat, i: nat, rows: seq<Row>)
    requires k < |files| && i < |files[k].rows|
  {
    Offset(files, k) + i < |rows| &&
    DeriveRow(PathOf(files[k].stem), files[k].rows[i]) == Ok(rows[Offset(files, k) + i])
  }

  /** The files read one after the other: every file converts exactly when every row does, and
      row `i` of file `k` is at position `Offset(files, k) + i`. */
  lemma ReadFilesRows(files: seq<CsvFile>)
    ensures ReadEach(files, ScanFile).Ok? <==> AllConvert(files)
    ensures ReadEach(files, ScanFile).Ok? ==>
      && |ReadEach(files, ScanFile).value| == Offset(files, |files|)
      && forall k, i :: 0 <= k < |files| && 0 <= i < |files[k].rows| ==>
           DerivedAt(files, k, i, ReadEach(files, ScanFile).value)
  {
    var r := ReadEach(files, ScanFile);
    if r.Ok? {
      ReadEachLength(files, ScanFile);
      OffsetIsBefore(files, |files|);
      forall k, i | 0 <= k < |files| && 0 <= i < |files[k].rows|
        ensures DerivedAt(files, k, i, r.value)
      {
        assert ScanFile(files[k]).Ok?;
        ReadEachAt(files, ScanFile, k, i);
        OffsetIsBefore(files, k);
      }
    }
  }

  /** `scan_csv().collect()`: the rows of all files matched by the glob, each derived from its
      own input row and tagged with its file's path. It fails when the glob matches no file, or
      when any time-of-day cell cannot be read; then it gives no rows at all. */
  function ScanCsv(files: seq<CsvFile>): (r: Result<seq<Row>, ScanError>)
    ensures files == [] ==> r == Err(NoFiles)
    ensures r.Ok? <==> files != [] && AllConvert(files)
    ensures r.Ok? ==> |r.value| == Offset(files, |files|)
    ensures r.Ok? ==>
      forall k, i :: 0 <= k < |files| && 0 <= i < |files[k].rows| ==> DerivedAt(files, k, i, r.value)
  {
    if files == [] then Err(NoFiles)
    else
      ReadFilesRows(files);
      ReadEach(files, ScanFile)
  }

  /** The `(file_path, request_date)` projection of scanned rows. */
  function Project(rows: seq<Row>): (r: seq<Request>)
    ensures |r| == |rows|
    ensures forall i :: 0 <= i < |rows| ==> r[i] == Request(rows[i].filePath, rows[i].requestDate)
  {
    seq(|rows|, i requires 0 <= i < |rows| => Request(rows[i].filePath, rows[i].requestDate))
  }

  lemma ProjectAppend(a: seq<Row>, b: seq<Row>)
    ensures Project(a + b) == Project(a) + Project(b)
  {
  }

  lemma ProjectFile(f: CsvFile)
    requires ScanRows(PathOf(f.stem), f.rows).Ok?
    ensures Project(ScanRows(PathOf(f.stem), f.rows).value) == FileRequests(f)
  {
  }

  /** Projecting the scan to `(file_path, request_date)` gives, row for row, each file's path
      beside the timestamp stored in that row: the tag always names the row's own file. */
  lemma ScanTagsFilePaths(files: seq<CsvFile>)
    requires ScanCsv(files).Ok?
    ensures Project(ScanCsv(files).value) == RequestsOf(files)
  {
    ReadTagsFilePaths(files);
  }

  lemma {:induction false} ReadTagsFilePaths(files: seq<CsvFile>)
    requires ReadEach(files, ScanFile).Ok?
    ensures Project(ReadEach(files, ScanFile).value) == RequestsOf(files)
  {
    if files != [] {
      var f := files[0];
      assert ScanFile(f).Ok?;
      ProjectFile(f);
      ReadTagsFilePaths(files[1..]);
      ProjectAppend(ScanFile(f).value, ReadEach(files[1..], ScanFile).value);
    }
  }
}
