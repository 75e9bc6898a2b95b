/** `has_missing_requests`: the distinct `(file_path, request_date)` pairs of the scanned relation,
    sorted by request time, reduced to calendar days; it counts the places where two consecutive
    scrape days are more than one day apart, and reports the number of distinct scrape days with
    the first and the last of them. */
module MissingRequests {
  import opened Wrappers
  import opened Tables
  import Sorting
  import Scan

  ghost predicate NoDuplicates<T>(s: seq<T>)
  {
    forall i, j :: 0 <= i < j < |s| ==> s[i] != s[j]
  }

  /** The sort key of `.sort("request_date")`. */
  function RequestDateKey(q: Request): int
  {
    q.requestDate
  }

  /** `.unique(("file_path", "request_date"))`: one copy of each pair. polars keeps any copy
      in any order; the model keeps the first one met, and `TieOrderIrrelevant` shows that the
      audit does not depend on that choice. */
  function Unique(s: seq<Request>): (r: seq<Request>)
    ensures NoDuplicates(r)
    ensures forall q :: q in r <==> q in s
  {
    if s == [] then []
    else
      var rest := Unique(s[..|s| - 1]);
      assert s == s[..|s| - 1] + [s[|s| - 1]];
      if s[|s| - 1] in rest then rest else rest + [s[|s| - 1]]
  }

  /** In a sequence without duplicates every element occurs once. */
  lemma {:induction false} DistinctCount<T>(s: seq<T>, x: T)
    requires NoDuplicates(s)
    ensures multiset(s)[x] == if x in s then 1 else 0
  {
    if s != [] {
      var p := s[..|s| - 1];
      assert s == p + [s[|s| - 1]];
      assert NoDuplicates(p);
      DistinctCount(p, x);
      assert s[|s| - 1] !in p;
    }
  }

  /** An element at two positions occurs at least twice. */
  lemma RepeatCount<T>(s: seq<T>, i: nat, j: nat)
    requires i < j < |s| && s[i] == s[j]
    ensures multiset(s)[s[i]] >= 2
  {
    assert s == s[..j] + [s[j]] + s[j + 1..];
    assert s[i] in s[..j];
  }

  /** Reordering keeps a sequence free of duplicates. */
  lemma ReorderNoDuplicates<T>(a: seq<T>, b: seq<T>)
    requires NoDuplicates(a) && multiset(a) == multiset(b)
    ensures NoDuplicates(b)
  {
    forall i, j | 0 <= i < j < |b| ensures b[i] != b[j] {
      if b[i] == b[j] {
        RepeatCount(b, i, j);
        DistinctCount(a, b[i]);
        assert false;
      }
    }
  }

  /** Two duplicate-free sequences with the same elements are reorderings of each other. */
  lemma SameElementsSameMultiset<T>(a: seq<T>, b: seq<T>)
    requires NoDuplicates(a) && NoDuplicates(b)
    requires forall x :: x in a <==> x in b
    ensures multiset(a) == multiset(b)
  {
    forall x ensures multiset(a)[x] == multiset(b)[x] {
      DistinctCount(a, x);
      DistinctCount(b, x);
    }
  }

  /** The `requests` frame (lines 58-64): each `(file_path, request_date)` pair of the input
      exactly once, in ascending order of `request_date`. */
  function Requests(rows: seq<Request>): (r: seq<Request>)
    ensures NoDuplicates(r)
    ensures forall q :: q in r <==> q in rows
    ensures Sorting.SortedBy(r, RequestDateKey)
  {
    var u := Unique(rows);
    var r := Sorting.SortBy(u, RequestDateKey);
    ReorderNoDuplicates(u, r);
    assert forall q :: q in r <==> q in u by {
      forall q ensures q in r <==> q in u {
        assert q in r <==> q in multiset(r);
        assert q in u <==> q in multiset(u);
      }
    }
    r
  }

  /** Two rows scraped at the same instant but stored in different files are two requests:
      scrape events are told apart by their file, not by their timestamp alone. */
  lemma SameInstantDifferentFiles(rows: seq<Request>, p1: string, p2: string, t: Timestamp)
    requires Request(p1, t) in rows && Request(p2, t) in rows && p1 != p2
    ensures Request(p1, t) in Requests(rows) && Request(p2, t) in Requests(rows)
    ensures |Requests(rows)| >= 2
  {
    var r := Requests(rows);
    var i :| 0 <= i < |r| && r[i] == Request(p1, t);
    var j :| 0 <= j < |r| && r[j] == Request(p2, t);
    assert i != j;
  }

  /** The engine may order requests with equal timestamps in any way; every such order has
      the same sequence of timestamps as the one modelled here, so nothing computed from the
      timestamps depends on it. */
  lemma TieOrderIrrelevant(rows: seq<Request>, other: seq<Request>)
    requires NoDuplicates(other)
    requires forall q :: q in other <==> q in rows
    requires Sorting.SortedBy(other, RequestDateKey)
    ensures Sorting.Keys(other, RequestDateKey) == Sorting.Keys(Requests(rows), RequestDateKey)
  {
    SameElementsSameMultiset(other, Requests(rows));
    Sorting.SortedKeysAgree(other, Requests(rows), RequestDateKey);
  }

  /** `pl.col("request_date").dt.date()` over the requests. */
  function RequestDays(requests: seq<Request>): (days: seq<Day>)
    ensures |days| == |requests|
    ensures forall i :: 0 <= i < |requests| ==> days[i] == DayOf(requests[i].requestDate)
  {
    seq(|requests|, i requires 0 <= i < |requests| => DayOf(requests[i].requestDate))
  }

  /** Requests in time order fall on days in calendar order. */
  lemma RequestDaysAscending(requests: seq<Request>)
    requires Sorting.SortedBy(requests, RequestDateKey)
    ensures Sorting.Ascending(RequestDays(requests))
  {
    var days := RequestDays(requests);
    forall i, j | 0 <= i < j < |days| ensures days[i] <= days[j] {
      assert RequestDateKey(requests[i]) <= RequestDateKey(requests[j]);
      DayOfMonotone(requests[i].requestDate, requests[j].requestDate);
    }
  }

  /** `.diff().drop_nulls()`: the difference of each day from the one before it. */
  function DayDiffs(days: seq<Day>): (diffs: seq<int>)
    ensures |diffs| == if days == [] then 0 else |days| - 1
    ensures forall i :: 0 <= i < |diffs| ==> diffs[i] == days[i + 1] - days[i]
  {
    if |days| <= 1 then [] else seq(|days| - 1, i requires 0 <= i < |days| - 1 => days[i + 1] - days[i])
  }

  /** `.filter(... > t).count()`: how many values exceed `t`. */
  function CountAbove(values: seq<int>, t: int): (n: nat)
    ensures n <= |values|
  {
    if values == [] then 0
    else CountAbove(values[..|values| - 1], t) + (if values[|values| - 1] > t then 1 else 0)
  }

  /** The number of gap occurrences (lines 66-71): consecutive days more than one day apart. */
  function GapCount(days: seq<Day>): nat
  {
    CountAbove(DayDiffs(days), 1)
  }

  /** `n_unique` of the days: how many distinct calendar days have a request. */
  function DistinctDays(days: seq<Day>): nat
  {
    |set d | d in days|
  }

  /** `.min()` of the days; null when there is none. */
  function MinDay(days: seq<Day>): (m: Option<Day>)
    ensures m.Some? <==> days != []
    ensures m.Some? ==> m.value in days && forall d :: d in days ==> m.value <= d
  {
    if days == [] then None
    else
      var rest := MinDay(days[1..]);
      assert forall d :: d in days ==> d == days[0] || d in days[1..];
      if rest.None? || days[0] <= rest.value then Some(days[0]) else rest
  }

  /** `.max()` of the days; null when there is none. */
  function MaxDay(days: seq<Day>): (m: Option<Day>)
    ensures m.Some? <==> days != []
    ensures m.Some? ==> m.value in days && forall d :: d in days ==> d <= m.value
  {
    if days == [] then None
    else
      var rest := MaxDay(days[1..]);
      assert forall d :: d in days ==> d == days[0] || d in days[1..];
      if rest.None? || days[0] >= rest.value then Some(days[0]) else rest
  }

  /** The figures the audit prints; `timeDiffs` is also its return value. */
  datatype Report = Report(nRequestedDays: nat, timeDiffs: nat, firstDay: Option<Day>, lastDay: Option<Day>)

  /** The sum of the values. */
  function Sum(values: seq<int>): int
  {
    if values == [] then 0 else Sum(values[..|values| - 1]) + values[|values| - 1]
  }

  // ---- Counting lemmas -------------------------------------------------------------------

  lemma CountAboveAppend(values: seq<int>, v: int, t: int)
    ensures CountAbove(values + [v], t) == CountAbove(values, t) + (if v > t then 1 else 0)
  {
    assert (values + [v])[..|values|] == values;
  }

  lemma SumAppend(values: seq<int>, v: int)
    ensures Sum(values + [v]) == Sum(values) + v
  {
    assert (values + [v])[..|values|] == values;
  }

  lemma DayDiffsAppend(days: seq<Day>, x: Day)
    requires days != []
    ensures DayDiffs(days + [x]) == DayDiffs(days) + [x - days[|days| - 1]]
  {
    var ext := days + [x];
    var l, r := DayDiffs(ext), DayDiffs(days) + [x - days[|days| - 1]];
    assert |l| == |r|;
    forall i | 0 <= i < |l| ensures l[i] == r[i] {
      assert l[i] == ext[i + 1] - ext[i];
      if i < |days| - 1 {
        assert ext[i + 1] == days[i + 1] && ext[i] == days[i];
      } else {
        assert ext[i + 1] == x && ext[i] == days[|days| - 1];
      }
    }
  }

  /** The count is the number of positions whose value exceeds the threshold. */
  lemma {:induction false} CountAboveIsCardinality(values: seq<int>, t: int)
    ensures CountAbove(values, t) == |set i | 0 <= i < |values| && values[i] > t|
  {
    if values != [] {
      var n := |values| - 1;
      var p := values[..n];
      CountAboveIsCardinality(p, t);
      var before := set i | 0 <= i < |p| && p[i] > t;
      var after := set i | 0 <= i < |values| && values[i] > t;
      if values[n] > t {
        assert after == before + {n};
      } else {
        assert after == before;
      }
    }
  }

  /** Positions `i` and `i + 1` hold days more than one day apart. */
  predicate JumpAt(days: seq<Day>, i: int)
  {
    0 <= i < |days| - 1 && days[i + 1] - days[i] > 1
  }

  /** The gap count is the number of adjacent pairs of days more than one day apart: a jump
      over several missing days is one gap. */
  lemma GapsAreAdjacentJumps(days: seq<Day>)
    ensures GapCount(days) == |set i | 0 <= i < |days| - 1 && JumpAt(days, i)|
  {
    var diffs := DayDiffs(days);
    CountAboveIsCardinality(diffs, 1);
    assert (set i | 0 <= i < |diffs| && diffs[i] > 1) ==
           (set i | 0 <= i < |days| - 1 && JumpAt(days, i));
  }

  /** No value exceeds the threshold exactly when the count is zero. */
  lemma {:induction false} CountAboveZero(values: seq<int>, t: int)
    ensures CountAbove(values, t) == 0 <==> forall i :: 0 <= i < |values| ==> values[i] <= t
  {
    if values != [] {
      var n := |values| - 1;
      CountAboveZero(values[..n], t);
      assert forall i :: 0 <= i < n ==> values[..n][i] == values[i];
    }
  }

  /** There is no gap exactly when each scrape day is at most one day after the one before. */
  lemma NoGapIffConsecutive(days: seq<Day>)
    ensures GapCount(days) == 0 <==> forall i :: 0 <= i < |days| - 1 ==> days[i + 1] - days[i] <= 1
  {
    CountAboveZero(DayDiffs(days), 1);
  }

  /** Over ascending days the steps from one day to the next are never negative. */
  lemma AscendingSteps(days: seq<Day>)
    requires Sorting.Ascending(days)
    ensures forall i :: 0 <= i < |DayDiffs(days)| ==> DayDiffs(days)[i] >= 0
  {
  }

  /** The span from the first day to the last is the sum of the steps. */
  lemma {:induction false} Telescope(days: seq<Day>)
    requires days != []
    ensures Sum(DayDiffs(days)) == days[|days| - 1] - days[0]
  {
    if |days| > 1 {
      var n := |days| - 1;
      var p := days[..n];
      assert days == p + [days[n]];
      Telescope(p);
      DayDiffsAppend(p, days[n]);
      SumAppend(DayDiffs(p), days[n] - p[n - 1]);
    }
  }

  lemma DaySetAppend(p: seq<Day>, x: Day)
    ensures (set d | d in p + [x]) == (set d | d in p) + {x}
  {
  }

  /** A day after the last of ascending days is after each of them. */
  lemma AboveAll(p: seq<Day>, x: Day)
    requires Sorting.Ascending(p) && p != [] && x > p[|p| - 1]
    ensures x !in (set d | d in p)
  {
    forall k | 0 <= k < |p| ensures p[k] < x {
      assert p[k] <= p[|p| - 1];
    }
  }

  /** Over ascending days, the distinct days are the first one plus one per strict step. */
  lemma {:induction false} DistinctAscending(days: seq<Day>)
    requires Sorting.Ascending(days) && days != []
    ensures DistinctDays(days) == 1 + CountAbove(DayDiffs(days), 0)
  {
    if |days| == 1 {
      assert (set d | d in days) == {days[0]};
    } else {
      var n := |days| - 1;
      var p := days[..n];
      var x := days[n];
      assert days == p + [x];
      assert Sorting.Ascending(p);
      DistinctAscending(p);
      StepCounted(p, x);
      DistinctStep(p, x);
    }
  }

  lemma StepCounted(p: seq<Day>, x: Day)
    requires p != []
    ensures CountAbove(DayDiffs(p + [x]), 0) == CountAbove(DayDiffs(p), 0) + (if x > p[|p| - 1] then 1 else 0)
  {
    DayDiffsAppend(p, x);
    CountAboveAppend(DayDiffs(p), x - p[|p| - 1], 0);
  }

  lemma DistinctStep(p: seq<Day>, x: Day)
    requires Sorting.Ascending(p) && p != [] && x >= p[|p| - 1]
    ensures DistinctDays(p + [x]) == DistinctDays(p) + (if x > p[|p| - 1] then 1 else 0)
  {
    DaySetAppend(p, x);
    var before := set d | d in p;
    if x == p[|p| - 1] {
      assert x in before;
      assert before + {x} == before;
    } else {
      AboveAll(p, x);
      assert |before + {x}| == |before| + 1;
    }
  }

  /** Over non-negative steps, each gap step is also a strict step, and contributes at least
      two days to the sum. */
  lemma {:induction false} StepsBound(values: seq<int>)
    requires forall i :: 0 <= i < |values| ==> values[i] >= 0
    ensures CountAbove(values, 1) <= CountAbove(values, 0)
    ensures CountAbove(values, 1) + CountAbove(values, 0) <= Sum(values)
  {
    if values != [] {
      var n := |values| - 1;
      StepsBound(values[..n]);
    }
  }

  /** Over ascending days, the gaps are fewer than the distinct days, and never more than the
      calendar days missing between the first and the last: the count is a lower bound. */
  lemma GapBounds(days: seq<Day>)
    requires Sorting.Ascending(days) && days != []
    ensures GapCount(days) <= DistinctDays(days) - 1
    ensures GapCount(days) <= (days[|days| - 1] - days[0] + 1) - DistinctDays(days)
  {
    AscendingSteps(days);
    Telescope(days);
    DistinctAscending(days);
    StepsBound(DayDiffs(days));
  }

  /** The scrape days before `last` whose next calendar day has no scrape: each one is where
      a gap begins. */
  function GapStarts(scraped: set<Day>, last: Day): set<Day>
  {
    set d | d in scraped && d < last && NextDayMissed(scraped, d)
  }

  /** No scrape on the calendar day after `d`. */
  predicate NextDayMissed(scraped: set<Day>, d: Day)
  {
    d + 1 !in scraped
  }

  /** Ascending days never exceed the last of them. */
  lemma UpToLast(p: seq<Day>)
    requires Sorting.Ascending(p) && p != []
    ensures forall d :: d in p ==> d <= p[|p| - 1]
  {
    forall d | d in p ensures d <= p[|p| - 1] {
      var k :| 0 <= k < |p| && p[k] == d;
      if k < |p| - 1 {
        assert p[k] <= p[|p| - 1];
      }
    }
  }

  lemma GapStep(p: seq<Day>, x: Day)
    requires p != []
    ensures GapCount(p + [x]) == GapCount(p) + (if x - p[|p| - 1] > 1 then 1 else 0)
  {
    DayDiffsAppend(p, x);
    CountAboveAppend(DayDiffs(p), x - p[|p| - 1], 1);
  }

  /** How the gap starts change when one more ascending day `x` follows the days `p`. */
  lemma GapStartsStep(p: seq<Day>, x: Day)
    requires Sorting.Ascending(p) && p != [] && x >= p[|p| - 1]
    ensures |GapStarts((set d | d in p + [x]), x)| ==
            |GapStarts((set d | d in p), p[|p| - 1])| + (if x - p[|p| - 1] > 1 then 1 else 0)
  {
    var y := p[|p| - 1];
    var before := set d | d in p;
    DaySetAppend(p, x);
    UpToLast(p);
    assert y in before;
    if x == y {
      assert before + {x} == before;
    } else if x == y + 1 {
      NextDayStarts(before, y);
    } else {
      LaterDayStarts(before, y, x);
    }
  }

  /** A scrape on the day after the last one closes no gap and opens none. */
  lemma NextDayStarts(before: set<Day>, y: Day)
    requires y in before && forall d :: d in before ==> d <= y
    ensures GapStarts(before + {y + 1}, y + 1) == GapStarts(before, y)
  {
    var a, b := GapStarts(before + {y + 1}, y + 1), GapStarts(before, y);
    forall d | d in a ensures d in b {
      assert d in before && d != y;
    }
    forall d | d in b ensures d in a {
      assert d + 1 <= y;
    }
  }

  /** A scrape two or more days after the last one makes the last one a gap start. */
  lemma LaterDayStarts(before: set<Day>, y: Day, x: Day)
    requires y in before && forall d :: d in before ==> d <= y
    requires x > y + 1
    ensures GapStarts(before + {x}, x) == GapStarts(before, y) + {y}
    ensures y !in GapStarts(before, y)
  {
    var a, b := GapStarts(before + {x}, x), GapStarts(before, y);
    assert y + 1 !in before;
    assert NextDayMissed(before + {x}, y);
    forall d | d in a ensures d in b + {y} {
      assert d in before;
    }
    forall d | d in b ensures d in a {
      assert d + 1 <= y;
      assert NextDayMissed(before + {x}, d);
    }
  }

  /** Over ascending days, the gap count is the number of scrape days, other than the last,
      whose next calendar day has no scrape. It depends only on the set of scrape days. */
  lemma {:induction false} GapsAreGapStarts(days: seq<Day>)
    requires Sorting.Ascending(days) && days != []
    ensures GapCount(days) == |GapStarts((set d | d in days), days[|days| - 1])|
  {
    if |days| == 1 {
      assert GapStarts((set d | d in days), days[0]) == {};
    } else {
      var n := |days| - 1;
      var p := days[..n];
      assert days == p + [days[n]];
      assert Sorting.Ascending(p);
      GapsAreGapStarts(p);
      GapStep(p, days[n]);
      GapStartsStep(p, days[n]);
    }
  }

  /** `has_missing_requests()` on the `(file_path, request_date)` pairs of the scan. */
  function HasMissingRequests(rows: seq<Request>): (rep: Report)
    ensures rep.firstDay.Some? <==> rows != []
    ensures rep.lastDay.Some? <==> rows != []
    ensures rep.nRequestedDays == |set q | q in rows :: DayOf(q.requestDate)|
    ensures rows == [] ==> rep == Report(0, 0, None, None)
    ensures rows != [] ==>
      && rep.firstDay.value <= rep.lastDay.value
      && (forall q :: q in rows ==> rep.firstDay.value <= DayOf(q.requestDate) <= rep.lastDay.value)
      && (exists q :: q in rows && DayOf(q.requestDate) == rep.firstDay.value)
      && (exists q :: q in rows && DayOf(q.requestDate) == rep.lastDay.value)
    ensures rows != [] ==>
      && rep.nRequestedDays >= 1
      && rep.timeDiffs <= rep.nRequestedDays - 1
      && rep.timeDiffs <= (rep.lastDay.value - rep.firstDay.value + 1) - rep.nRequestedDays
    ensures rows != [] ==>
      rep.timeDiffs == |GapStarts((set q | q in rows :: DayOf(q.requestDate)), rep.lastDay.value)|
  {
    var requests := Requests(rows);
    var days := RequestDays(requests);
    DaysOfRows(rows, requests, days);
    ExtremesOfRows(rows, days);
    if rows == [] then
      assert requests == [];
      Report(0, 0, None, None)
    else
      GapsOfRows(rows, requests, days);
      Report(DistinctDays(days), GapCount(days), MinDay(days), MaxDay(days))
  }

  /** `has_missing_requests()` over the snapshot files. The query selects only `file_path` and
      `request_date` after the scan, so the lazy engine drops the derived columns nobody reads,
      and with them the strict time-of-day conversions: only a folder with no file makes it
      raise. Where the full scan succeeds, its projection gives the same report. */
  function Audit(files: seq<CsvFile>): (r: Result<Report, Scan.ScanError>)
    ensures r.Err? <==> files == []
    ensures r.Err? ==> r.error == Scan.NoFiles
    ensures r.Ok? ==> r.value == HasMissingRequests(RequestsOf(files))
    ensures Scan.ScanCsv(files).Ok? ==>
      r == Ok(HasMissingRequests(Scan.Project(Scan.ScanCsv(files).value)))
  {
    if files == [] then Err(Scan.NoFiles)
    else
      PushdownAgrees(files);
      Ok(HasMissingRequests(RequestsOf(files)))
  }

  /** Dropping the unread columns before the scan changes no pair: whenever the full scan
      succeeds, its `(file_path, request_date)` projection is the pairs the files store. */
  lemma PushdownAgrees(files: seq<CsvFile>)
    ensures Scan.ScanCsv(files).Ok? ==> Scan.Project(Scan.ScanCsv(files).value) == RequestsOf(files)
  {
    if Scan.ScanCsv(files).Ok? {
      Scan.ScanTagsFilePaths(files);
    }
  }

  /** A departure time written `7h05` makes the full scan raise, yet the audit, which never
      reads that column, reports one scrape day and no gap. */
  lemma UnreadTimeIgnored(d: Day)
    ensures Scan.ScanCsv(LenientFolder(d)).Err?
    ensures Audit(LenientFolder(d)) == Ok(Report(1, 0, Some(d), Some(d)))
  {
    var files := LenientFolder(d);
    assert Scan.ParseHourMinute("7h05") == None;
    assert !Scan.RowConverts(files[0].rows[0]);
    var rows := [Request(PathOf("1"), d * MicrosPerDay)];
    assert RequestsOf(files) == rows;
    DayOfUnique(d * MicrosPerDay, d);
    SingleRequest(rows[0]);
  }

  /** One snapshot file with one row whose departure time is not in `HH:MM` form. */
  function LenientFolder(d: Day): seq<CsvFile>
  {
    [CsvFile("1", [SnapshotRow(UpstreamRow(d, Some("7h05"), None, None, []), d * MicrosPerDay)])]
  }

  /** A single request is one scrape day without a gap. */
  lemma SingleRequest(q: Request)
    ensures HasMissingRequests([q]) ==
      Report(1, 0, Some(DayOf(q.requestDate)), Some(DayOf(q.requestDate)))
  {
    var requests := Requests([q]);
    assert q in requests;
    assert forall x :: x in requests <==> x == q;
    SameElementsSameMultiset(requests, [q]);
    assert |requests| == 1;
    var days := RequestDays(requests);
    assert days == [DayOf(q.requestDate)];
    GapsOfRows([q], requests, days);
  }

  /** Files that hold only their header row scan fine and give the empty report. */
  lemma HeaderOnlyFiles(files: seq<CsvFile>)
    requires files != [] && forall k :: 0 <= k < |files| ==> files[k].rows == []
    ensures Audit(files) == Ok(Report(0, 0, None, None))
  {
    RequestsOfMembers(files);
  }

  lemma ExtremesOfRows(rows: seq<Request>, days: seq<Day>)
    requires forall d :: d in days <==> exists q :: q in rows && DayOf(q.requestDate) == d
    ensures MinDay(days).Some? <==> rows != []
    ensures rows != [] ==>
      && (forall q :: q in rows ==> MinDay(days).value <= DayOf(q.requestDate) <= MaxDay(days).value)
      && (exists q :: q in rows && DayOf(q.requestDate) == MinDay(days).value)
      && (exists q :: q in rows && DayOf(q.requestDate) == MaxDay(days).value)
  {
    forall q | q in rows ensures DayOf(q.requestDate) in days {
    }
    if rows != [] {
      assert DayOf(rows[0].requestDate) in days;
      var lo, hi := MinDay(days).value, MaxDay(days).value;
      assert lo in days && hi in days;
    } else if days != [] {
      assert days[0] in days;
    }
  }

  lemma GapsOfRows(rows: seq<Request>, requests: seq<Request>, days: seq<Day>)
    requires rows != [] && requests == Requests(rows) && days == RequestDays(requests)
    ensures days != [] && MinDay(days) == Some(days[0]) && MaxDay(days) == Some(days[|days| - 1])
    ensures GapCount(days) <= DistinctDays(days) - 1
    ensures GapCount(days) <= (days[|days| - 1] - days[0] + 1) - DistinctDays(days)
    ensures GapCount(days) == |GapStarts((set d | d in days), days[|days| - 1])|
  {
    assert rows[0] in requests;
    RequestDaysAscending(requests);
    GapBounds(days);
    FirstLast(days);
    GapsAreGapStarts(days);
  }

  /** The days of the requests are the days of the input rows. */
  lemma DaysOfRows(rows: seq<Request>, requests: seq<Request>, days: seq<Day>)
    requires forall q :: q in requests <==> q in rows
    requires days == RequestDays(requests)
    ensures forall d :: d in days <==> exists q :: q in rows && DayOf(q.requestDate) == d
    ensures (set d | d in days) == set q | q in rows :: DayOf(q.requestDate)
  {
    forall d ensures d in days <==> exists q :: q in rows && DayOf(q.requestDate) == d {
      if d in days {
        var i :| 0 <= i < |days| && days[i] == d;
        assert requests[i] in requests;
      }
      if exists q :: q in rows && DayOf(q.requestDate) == d {
        var q :| q in rows && DayOf(q.requestDate) == d;
        var i :| 0 <= i < |requests| && requests[i] == q;
        assert days[i] == d;
      }
    }
  }

  /** On ascending days the minimum is the first day and the maximum the last. */
  lemma FirstLast(days: seq<Day>)
    requires Sorting.Ascending(days) && days != []
    ensures MinDay(days) == Some(days[0])
    ensures MaxDay(days) == Some(days[|days| - 1])
  {
    MinIsFirst(days);
    MaxIsLast(days);
  }

  lemma MinIsFirst(days: seq<Day>)
    requires Sorting.Ascending(days) && days != []
    ensures MinDay(days) == Some(days[0])
  {
    var lo := MinDay(days).value;
    assert days[0] in days;
    var i :| 0 <= i < |days| && days[i] == lo;
    if i > 0 {
      assert days[0] <= days[i];
    }
    assert lo == days[0];
    assert MinDay(days) == Some(lo);
  }

  lemma MaxIsLast(days: seq<Day>)
    requires Sorting.Ascending(days) && days != []
    ensures MaxDay(days) == Some(days[|days| - 1])
  {
    var hi := MaxDay(days).value;
    var last := |days| - 1;
    assert days[last] in days;
    var j :| 0 <= j < |days| && days[j] == hi;
    if j < last {
      assert days[j] <= days[last];
    }
    assert hi == days[last];
    assert MaxDay(days) == Some(hi);
  }

  /** All rows of a file written by one download carry the same timestamp, so the file
      contributes exactly one request to the audit. */
  lemma OneRequestPerDownload(stem: string, data: seq<UpstreamRow>, now: Timestamp)
    requires data != []
    ensures Unique(FileRequests(CsvFile(stem, Stamp(data, now)))) == [Request(PathOf(stem), now)]
  {
    var q := Request(PathOf(stem), now);
    var rs := FileRequests(CsvFile(stem, Stamp(data, now)));
    var u := Unique(rs);
    assert rs[0] == q && rs[0] in rs;
    assert forall x :: x in u <==> x == q;
    assert q in u;
    SameElementsSameMultiset(u, [q]);
    assert |u| == |multiset(u)| == 1;
    assert u[0] in multiset(u);
  }

  /** Scrape days `d, d+1, d+2, d+5, d+6`: one gap (the jump from `d+2` to `d+5`, although two
      days are missing), five scrape days. */
  lemma GapExample(d: Day)
    ensures GapCount([d, d + 1, d + 2, d + 5, d + 6]) == 1
    ensures DistinctDays([d, d + 1, d + 2, d + 5, d + 6]) == 5
  {
    var days := [d, d + 1, d + 2, d + 5, d + 6];
    var diffs := DayDiffs(days);
    assert diffs == [1, 1, 3, 1];
    assert diffs[..3] == [1, 1, 3];
    assert CountAbove([1], 1) == 0;
    assert CountAbove([1, 1], 1) == 0 by { assert [1, 1][..1] == [1]; }
    assert CountAbove([1, 1, 3], 1) == 1 by { assert [1, 1, 3][..2] == [1, 1]; }
    assert CountAbove(diffs, 1) == 1;
    DistinctExample(d);
  }

  lemma DistinctExample(d: Day)
    ensures DistinctDays([d, d + 1, d + 2, d + 5, d + 6]) == 5
  {
    var days := [d, d + 1, d + 2, d + 5, d + 6];
    var s1: set<Day> := {d};
    var s2 := s1 + {d + 1};
    assert d + 1 !in s1;
    var s3 := s2 + {d + 2};
    assert d + 2 !in s2;
    var s4 := s3 + {d + 5};
    assert d + 5 !in s3;
    var s5 := s4 + {d + 6};
    assert d + 6 !in s4;
    assert (set x | x in days) == s5;
  }

  /** Scrapes on consecutive days leave no gap. */
  lemma ConsecutiveExample(d: Day)
    ensures GapCount([d, d + 1, d + 2]) == 0
  {
    NoGapIffConsecutive([d, d + 1, d + 2]);
  }

  /** The example rows are already distinct and in time order, so the audit sees their days. */
  lemma ExampleDays(d: Day)
    ensures RequestDays(Requests(ExampleRows(d))) == [d, d + 1, d + 2, d + 5, d + 6]
  {
    ExampleRowsInOrder(d);
    AlreadyInOrder(ExampleRows(d));
    ExampleRowDays(d);
  }

  lemma ExampleRowsInOrder(d: Day)
    ensures Sorting.SortedBy(ExampleRows(d), RequestDateKey)
    ensures NoDuplicates(ExampleRows(d))
  {
    var rows := ExampleRows(d);
    assert Sorting.SortedBy(rows, RequestDateKey);
    forall i, j | 0 <= i < j < |rows| ensures rows[i] != rows[j] {
      assert rows[i].requestDate < rows[j].requestDate;
    }
  }

  lemma ExampleRowDays(d: Day)
    ensures RequestDays(ExampleRows(d)) == [d, d + 1, d + 2, d + 5, d + 6]
  {
    var morning := 6 * 3_600_000_000;
    DayOfUnique(d * MicrosPerDay + morning, d);
    DayOfUnique((d + 1) * MicrosPerDay + morning, d + 1);
    DayOfUnique((d + 2) * MicrosPerDay + morning, d + 2);
    DayOfUnique((d + 5) * MicrosPerDay + morning, d + 5);
    DayOfUnique((d + 6) * MicrosPerDay + morning, d + 6);
  }

  /** Rows already distinct and in time order fall on the same days as their requests. */
  lemma AlreadyInOrder(rows: seq<Request>)
    requires NoDuplicates(rows) && Sorting.SortedBy(rows, RequestDateKey)
    ensures RequestDays(Requests(rows)) == RequestDays(rows)
  {
    TieOrderIrrelevant(rows, rows);
    var requests := Requests(rows);
    var days, days' := RequestDays(requests), RequestDays(rows);
    forall i | 0 <= i < |rows| ensures days[i] == days'[i] {
      assert Sorting.Keys(requests, RequestDateKey)[i] == Sorting.Keys(rows, RequestDateKey)[i];
    }
  }


  /** A whole audit: five snapshot files scraped at 06:00 on days `d, d+1, d+2, d+5, d+6`
      report five scrape days, one gap, from `d` to `d+6`. */
  lemma AuditExample(d: Day)
    ensures HasMissingRequests(ExampleRows(d)) == Report(5, 1, Some(d), Some(d + 6))
  {
    var rows := ExampleRows(d);
    ExampleDays(d);
    var days := RequestDays(Requests(rows));
    GapExample(d);
    GapsOfRows(rows, Requests(rows), days);
  }

  /** The rows of `AuditExample`, one per file, already in time order. */
  function ExampleRows(d: Day): seq<Request>
  {
    var morning := 6 * 3_600_000_000;
    [Request(PathOf("1"), d * MicrosPerDay + morning),
     Request(PathOf("2"), (d + 1) * MicrosPerDay + morning),
     Request(PathOf("3"), (d + 2) * MicrosPerDay + morning),
     Request(PathOf("4"), (d + 5) * MicrosPerDay + morning),
     Request(PathOf("5"), (d + 6) * MicrosPerDay + morning)]
  }
}
