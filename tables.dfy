/** The entities the scrape produces: upstream rows, rows stamped with their request time,
    and the numbered CSV files of the `data/maxjeune` folder. */
module Tables {
  import opened Wrappers

  /** A polars `Date`: days since 1970-01-01. */
  type Day = int

  /** A polars `Datetime` in its default unit: microseconds since 1970-01-01 00:00, no time zone. */
  type Timestamp = int

  const MicrosPerDay: int := 86_400_000_000

  /** `.dt.date()`: the calendar day a timestamp falls on. */
  function DayOf(ts: Timestamp): (d: Day)
    ensures d * MicrosPerDay <= ts < (d + 1) * MicrosPerDay
  {
    ts / MicrosPerDay
  }

  /** The calendar day of a timestamp is its unique day-long window. */
  lemma DayOfUnique(ts: Timestamp, d: Day)
    requires d * MicrosPerDay <= ts < (d + 1) * MicrosPerDay
    ensures DayOf(ts) == d
  {
  }

  /** A later timestamp never falls on an earlier day. */
  lemma DayOfMonotone(s: Timestamp, t: Timestamp)
    requires s <= t
    ensures DayOf(s) <= DayOf(t)
  {
  }

  /** One row of the upstream dataset as the CSV export gives it: the trip day, the two times
      of day as text, the availability text, and the remaining columns (train number, stations,
      ...) which no rule here reads. `None` is an empty cell. */
  datatype UpstreamRow = UpstreamRow(
    date: Day,
    heureDepart: Option<string>,
    heureArrivee: Option<string>,
    odHappyCard: Option<string>,
    others: seq<Option<string>>)

  /** An upstream row with the `request_date` column the download adds. */
  datatype SnapshotRow = SnapshotRow(row: UpstreamRow, requestDate: Timestamp)

  /** One `<stem>.csv` file of the snapshot folder and its rows. */
  datatype CsvFile = CsvFile(stem: string, rows: seq<SnapshotRow>)

  const SnapshotFolderPath: string := "data/maxjeune"

  /** The path under which a scan reports a file: `DATA_FOLDER / "maxjeune" / f"{stem}.csv"`. */
  function PathOf(stem: string): (p: string)
    ensures |p| == |SnapshotFolderPath| + |stem| + 5
    ensures p[..|SnapshotFolderPath| + 1] == SnapshotFolderPath + "/"
    ensures p[|SnapshotFolderPath| + 1..|p| - 4] == stem
    ensures p[|p| - 4..] == ".csv"
  {
    SnapshotFolderPath + "/" + stem + ".csv"
  }

  /** Different files have different paths. */
  lemma PathOfInjective(a: string, b: string)
    requires PathOf(a) == PathOf(b)
    ensures a == b
  {
    var n := |SnapshotFolderPath| + 1;
    assert a == PathOf(a)[n..n + |a|];
    assert b == PathOf(b)[n..n + |b|];
  }

  /** `with_columns(request_date=now)`: every row gets the same request timestamp. */
  function Stamp(data: seq<UpstreamRow>, now: Timestamp): (rows: seq<SnapshotRow>)
    ensures |rows| == |data|
    ensures forall i :: 0 <= i < |rows| ==> rows[i].row == data[i] && rows[i].requestDate == now
  {
    seq(|data|, i requires 0 <= i < |data| => SnapshotRow(data[i], now))
  }

  /** One `(file_path, request_date)` pair: which file a row came from and when it was scraped. */
  datatype Request = Request(filePath: string, requestDate: Timestamp)

  /** The `(file_path, request_date)` pairs of the rows of one file, in row order. */
  function FileRequests(f: CsvFile): (r: seq<Request>)
    ensures |r| == |f.rows|
    ensures forall i :: 0 <= i < |r| ==> r[i] == Request(PathOf(f.stem), f.rows[i].requestDate)
  {
    seq(|f.rows|, i requires 0 <= i < |f.rows| => Request(PathOf(f.stem), f.rows[i].requestDate))
  }

  /** The `(file_path, request_date)` pairs of all rows of `files`, in file and row order. */
  function RequestsOf(files: seq<CsvFile>): seq<Request>
  {
    if files == [] then [] else FileRequests(files[0]) + RequestsOf(files[1..])
  }

  /** Some row of file `f` carries the pair `q`. */
  predicate StoredIn(q: Request, f: CsvFile)
  {
    exists i :: 0 <= i < |f.rows| && q == Request(PathOf(f.stem), f.rows[i].requestDate)
  }

  /** The pairs of all files are exactly the pairs some file stores. */
  lemma {:induction false} RequestsOfMembers(files: seq<CsvFile>)
    ensures forall q :: q in RequestsOf(files) <==> exists k :: 0 <= k < |files| && StoredIn(q, files[k])
  {
    if files != [] {
      RequestsOfMembers(files[1..]);
      var f := files[0];
      forall q ensures q in FileRequests(f) <==> StoredIn(q, f) {
        if StoredIn(q, f) {
          var i :| 0 <= i < |f.rows| && q == Request(PathOf(f.stem), f.rows[i].requestDate);
          assert FileRequests(f)[i] == q;
        }
      }
      assert forall k :: 1 <= k < |files| ==> files[k] == files[1..][k - 1];
      forall q | exists k :: 0 <= k < |files| && StoredIn(q, files[k])
        ensures q in RequestsOf(files)
      {
        var k :| 0 <= k < |files| && StoredIn(q, files[k]);
        if k > 0 {
          assert StoredIn(q, files[1..][k - 1]);
        }
      }
    }
  }
}
