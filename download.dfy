/** `download_maxjeune`: the next snapshot number is one more than the largest number among the
    existing `*.csv` stems, or 1 in an empty folder; the fetched table, stamped with the request
    time, is written under that number. */
module Download {
  import opened Wrappers
  import opened Tables
  import PyInt
  import Sorting

  /** `int(file.stem)` raised `ValueError` for this stem: nothing is allocated or written. */
  datatype AllocError = NotAnInteger(stem: string)

  /** `f` applied to each element in order; the first element it rejects stops the
      evaluation, as an exception raised inside a generator does. */
  function ReadAll<A(==), B>(xs: seq<A>, f: A -> Option<B>): (r: Result<seq<B>, A>)
    ensures r.Ok? <==> forall i :: 0 <= i < |xs| ==> f(xs[i]).Some?
    ensures r.Ok? ==> |r.value| == |xs|
    ensures r.Ok? ==> forall i :: 0 <= i < |xs| ==> f(xs[i]) == Some(r.value[i])
    ensures r.Err? ==>
      exists i :: (0 <= i < |xs| && xs[i] == r.error && f(xs[i]).None?
        && forall j :: 0 <= j < i ==> f(xs[j]).Some?)
  {
    if xs == [] then Ok([])
    else
      match f(xs[0])
      case None => Err(xs[0])
      case Some(y) =>
        var rest := ReadAll(xs[1..], f);
        assert forall j :: 1 <= j < |xs| ==> xs[j] == xs[1..][j - 1];
        match rest
        case Err(e) =>
          var i :| 0 <= i < |xs[1..]| && xs[1..][i] == e && f(xs[1..][i]).None?
            && forall j :: 0 <= j < i ==> f(xs[1..][j]).Some?;
          assert xs[i + 1] == e;
          Err(e)
        case Ok(ys) => Ok([y] + ys)
  }

  /** The largest of some numbers. */
  function MaxOf(s: seq<int>): (m: int)
    requires s != []
    ensures m in s && forall x :: x in s ==> x <= m
  {
    if |s| == 1 then s[0]
    else
      var r := MaxOf(s[1..]);
      assert forall x :: x in s ==> x == s[0] || x in s[1..];
      if s[0] >= r then s[0] else r
  }

  /** The number after `file_numbers` (lines 44-47): 1 when there is none, otherwise one more
      than the largest, which `SortedLastIsMax` shows is `sorted(file_numbers)[-1]`. */
  function NextNumber(fileNumbers: seq<int>): (n: int)
    ensures fileNumbers == [] ==> n == 1
    ensures fileNumbers != [] ==> n - 1 in fileNumbers
    ensures forall m :: m in fileNumbers ==> m < n
  {
    if fileNumbers == [] then 1 else MaxOf(fileNumbers) + 1
  }

  /** The last element of `sorted(file_numbers)` is their largest: taking it, as line 47
      does, and taking the maximum agree. */
  lemma SortedLastIsMax(fileNumbers: seq<int>)
    requires fileNumbers != []
    ensures |Sorting.SortBy(fileNumbers, x => x)| == |fileNumbers|
    ensures Sorting.SortBy(fileNumbers, x => x)[|fileNumbers| - 1] == MaxOf(fileNumbers)
  {
    var sorted := Sorting.SortBy(fileNumbers, x => x);
    assert |sorted| == |multiset(sorted)| == |multiset(fileNumbers)| == |fileNumbers|;
    var last := sorted[|sorted| - 1];
    var top := MaxOf(fileNumbers);
    assert last in multiset(fileNumbers);
    assert top in multiset(sorted);
    var k :| 0 <= k < |sorted| && sorted[k] == top;
    if k < |sorted| - 1 {
      assert (x => x)(sorted[k]) <= (x => x)(last);
    }
    assert last in fileNumbers;
  }

  /** The number of the next snapshot file: the stems read as integers, then the next number
      after them. The first stem that is not an integer makes the allocation fail. */
  function NextFileNumber(stems: seq<string>): Result<int, AllocError>
  {
    match ReadAll(stems, PyInt.ParseInt)
    case Err(stem) => Err(NotAnInteger(stem))
    case Ok(numbers) => Ok(NextNumber(numbers))
  }

  /** Reading succeeds exactly when `f` accepts every element. */
  lemma ReadAllOk<A, B>(xs: seq<A>, f: A -> Option<B>)
    ensures ReadAll(xs, f).Ok? <==> forall x :: x in xs ==> f(x).Some?
  {
    if forall x :: x in xs ==> f(x).Some? {
      forall i | 0 <= i < |xs| ensures f(xs[i]).Some? {
        assert xs[i] in xs;
      }
    }
  }

  /** Every element's reading is among the values read. */
  lemma ReadAllValues<A, B>(xs: seq<A>, f: A -> Option<B>)
    requires ReadAll(xs, f).Ok?
    ensures forall x :: x in xs ==> f(x).Some? && f(x).value in ReadAll(xs, f).value
  {
    var values := ReadAll(xs, f).value;
    forall x | x in xs ensures f(x).Some? && f(x).value in values {
      var i :| 0 <= i < |xs| && xs[i] == x;
      assert values[i] in values;
    }
  }

  /** Every value read is the reading of some element. */
  lemma ReadAllSource<A, B>(xs: seq<A>, f: A -> Option<B>, y: B) returns (x: A)
    requires ReadAll(xs, f).Ok? && y in ReadAll(xs, f).value
    ensures x in xs && f(x) == Some(y)
  {
    var values := ReadAll(xs, f).value;
    var i :| 0 <= i < |values| && values[i] == y;
    x := xs[i];
  }

  /** The allocation succeeds exactly when every stem is an integer. */
  lemma AllocationOk(stems: seq<string>)
    ensures NextFileNumber(stems).Ok? <==> forall s :: s in stems ==> PyInt.ParseInt(s).Some?
  {
    ReadAllOk(stems, PyInt.ParseInt);
  }

  /** A failed allocation names the first stem, in listing order, that is not an integer. */
  lemma AllocationError(stems: seq<string>)
    ensures NextFileNumber(stems).Err? ==>
      exists i :: (0 <= i < |stems| && stems[i] == NextFileNumber(stems).error.stem
        && PyInt.ParseInt(stems[i]).None?
        && forall j :: 0 <= j < i ==> PyInt.ParseInt(stems[j]).Some?)
  {
  }

  /** Every existing stem reads as a number below the allocated one. */
  lemma AllocationBound(stems: seq<string>)
    requires NextFileNumber(stems).Ok?
    ensures forall s :: s in stems ==>
      PyInt.ParseInt(s).Some? && PyInt.ParseInt(s).value < NextFileNumber(stems).value
  {
    ReadAllValues(stems, PyInt.ParseInt);
  }

  /** A stem that reads as the largest existing number: the allocated number is one more
      than an existing one. An empty folder allocates 1. */
  lemma AllocationAttained(stems: seq<string>)
    requires NextFileNumber(stems).Ok?
    ensures stems == [] ==> NextFileNumber(stems).value == 1
    ensures stems != [] ==>
      exists s :: s in stems && PyInt.ParseInt(s) == Some(NextFileNumber(stems).value - 1)
  {
    if stems != [] {
      var s := ReadAllTop(stems, PyInt.ParseInt);
    }
  }

  /** An element whose reading is the largest value read. */
  lemma ReadAllTop<A>(xs: seq<A>, f: A -> Option<int>) returns (x: A)
    requires ReadAll(xs, f).Ok? && xs != []
    ensures x in xs && f(x) == Some(NextNumber(ReadAll(xs, f).value) - 1)
  {
    var numbers := ReadAll(xs, f).value;
    assert numbers != [] by {
      assert |numbers| == |xs|;
    }
    var top := NextNumber(numbers) - 1;
    assert top in numbers;
    x := ReadAllSource(xs, f, top);
  }

  /** The allocated file never overwrites an existing one: its stem `f"{n}"` is not among the
      existing stems, because every existing stem reads as a smaller number. */
  lemma NoCollision(stems: seq<string>)
    requires NextFileNumber(stems).Ok?
    ensures PyInt.Show(NextFileNumber(stems).value) !in stems
  {
    var n := NextFileNumber(stems).value;
    PyInt.ParseShow(n);
    AllocationBound(stems);
  }

  /** Once file `n` is written, the next allocation is `n + 1`: snapshots are numbered in
      the order they are taken. */
  lemma NextAfterWrite(stems: seq<string>)
    requires NextFileNumber(stems).Ok?
    ensures NextFileNumber(stems + [PyInt.Show(NextFileNumber(stems).value)]) ==
            Ok(NextFileNumber(stems).value + 1)
  {
    var n := NextFileNumber(stems).value;
    PyInt.ParseShow(n);
    NextAfterAppend(stems, PyInt.ParseInt, PyInt.Show(n), n);
  }

  /** Appending an element that reads as the next number moves the next number on by one. */
  lemma NextAfterAppend<A>(xs: seq<A>, f: A -> Option<int>, x: A, n: int)
    requires ReadAll(xs, f).Ok? && n == NextNumber(ReadAll(xs, f).value)
    requires f(x) == Some(n)
    ensures ReadAll(xs + [x], f).Ok? && NextNumber(ReadAll(xs + [x], f).value) == n + 1
  {
    ReadAppend(xs, f, x, n);
    NextNumberAppend(ReadAll(xs, f).value);
  }

  /** Reading one more element appends its reading. */
  lemma {:induction false} ReadAppend<A, B>(xs: seq<A>, f: A -> Option<B>, x: A, v: B)
    requires ReadAll(xs, f).Ok? && f(x) == Some(v)
    ensures ReadAll(xs + [x], f) == Ok(ReadAll(xs, f).value + [v])
  {
    if xs == [] {
      assert ReadAll(xs, f) == Ok([]);
      ReadCons(f, x, [], v, []);
      assert [x] + [] == xs + [x];
      assert [v] + [] == [] + [v];
    } else {
      var head, tail := xs[0], xs[1..];
      assert xs == [head] + tail;
      var y := f(head).value;
      var vs := ReadAll(tail, f).value;
      ReadCons(f, head, tail, y, vs);
      ReadAppend(tail, f, x, v);
      ReadCons(f, head, tail + [x], y, vs + [v]);
      assert [head] + (tail + [x]) == xs + [x];
      assert [y] + (vs + [v]) == ([y] + vs) + [v];
    }
  }

  /** The next number after `numbers` followed by their own next number is one more. */
  lemma NextNumberAppend(numbers: seq<int>)
    ensures NextNumber(numbers + [NextNumber(numbers)]) == NextNumber(numbers) + 1
  {
    var n := NextNumber(numbers);
    var numbers' := numbers + [n];
    assert n in numbers';
    var n' := NextNumber(numbers');
    assert n' - 1 in numbers || n' - 1 == n;
  }

  /** The allocation depends only on which stems exist, not on the listing order nor on
      repetitions: the same set of stems gives the same outcome. */
  lemma ListingOrderIrrelevant(a: seq<string>, b: seq<string>)
    requires forall s :: s in a <==> s in b
    ensures NextFileNumber(a).Ok? <==> NextFileNumber(b).Ok?
    ensures NextFileNumber(a).Ok? ==> NextFileNumber(a) == NextFileNumber(b)
  {
    SameOutcome(a, b, PyInt.ParseInt);
  }

  /** Two listings of the same elements read alike and give the same next number. */
  lemma SameOutcome<A>(a: seq<A>, b: seq<A>, f: A -> Option<int>)
    requires forall x :: x in a <==> x in b
    ensures ReadAll(a, f).Ok? <==> ReadAll(b, f).Ok?
    ensures ReadAll(a, f).Ok? ==> NextNumber(ReadAll(a, f).value) == NextNumber(ReadAll(b, f).value)
  {
    ReadAllOk(a, f);
    ReadAllOk(b, f);
    if ReadAll(a, f).Ok? {
      var va, vb := ReadAll(a, f).value, ReadAll(b, f).value;
      ReadAllValues(a, f);
      ReadAllValues(b, f);
      forall m | m in va ensures m in vb {
        var x := ReadAllSource(a, f, m);
        assert x in b;
      }
      forall m | m in vb ensures m in va {
        var x := ReadAllSource(b, f, m);
        assert x in a;
      }
      SameElementsSameNext(va, vb);
    }
  }

  /** The next number depends only on which numbers there are. */
  lemma SameElementsSameNext(va: seq<int>, vb: seq<int>)
    requires forall m :: m in va <==> m in vb
    ensures NextNumber(va) == NextNumber(vb)
  {
    if va != [] {
      assert va[0] in va;
    }
    if vb != [] {
      assert vb[0] in vb;
    }
  }

  /** When every existing stem is a non-negative integer, the allocated number is positive. */
  lemma NextIsPositive(stems: seq<string>)
    requires forall s :: s in stems ==> PyInt.ParseInt(s).Some? && PyInt.ParseInt(s).value >= 0
    ensures NextFileNumber(stems).Ok? && NextFileNumber(stems).value >= 1
  {
    AllocationOk(stems);
    if stems != [] {
      var s := ReadAllTop(stems, PyInt.ParseInt);
      assert s in stems;
    }
  }

  /** With files `1.csv`, `2.csv` and `5.csv` present the next file is `6.csv`: the gap at 3
      and 4 is not filled. */
  lemma NoGapFilling()
    ensures NextFileNumber(["1", "2", "5"]) == Ok(6)
    ensures NextFileNumber(["5", "1", "2"]) == Ok(6)
  {
    PyInt.ParseShow(1);
    PyInt.ParseShow(2);
    PyInt.ParseShow(5);
    assert PyInt.Show(1) == "1" && PyInt.Show(2) == "2" && PyInt.Show(5) == "5";
    ReadThree(PyInt.ParseInt, "1", "2", "5", 1, 2, 5);
    NextOfThree(1, 2, 5);
    Rotated("1", "2", "5");
    ListingOrderIrrelevant(["1", "2", "5"], ["5", "1", "2"]);
  }

  lemma NextOfThree(a: int, b: int, c: int)
    requires a < b < c
    ensures NextNumber([a, b, c]) == c + 1
  {
    assert c in [a, b, c];
  }

  lemma Rotated<A>(x1: A, x2: A, x3: A)
    ensures forall x :: x in [x1, x2, x3] <==> x in [x3, x1, x2]
  {
  }

  lemma ReadThree<A, B>(f: A -> Option<B>, x1: A, x2: A, x3: A, v1: B, v2: B, v3: B)
    requires f(x1) == Some(v1) && f(x2) == Some(v2) && f(x3) == Some(v3)
    ensures ReadAll([x1, x2, x3], f) == Ok([v1, v2, v3])
  {
    ReadCons(f, x3, [], v3, []);
    assert [x3] + [] == [x3] && [v3] + [] == [v3];
    ReadCons(f, x2, [x3], v2, [v3]);
    assert [x2] + [x3] == [x2, x3] && [v2] + [v3] == [v2, v3];
    ReadCons(f, x1, [x2, x3], v1, [v2, v3]);
    assert [x1] + [x2, x3] == [x1, x2, x3] && [v1] + [v2, v3] == [v1, v2, v3];
  }

  lemma ReadCons<A, B>(f: A -> Option<B>, x: A, xs: seq<A>, v: B, vs: seq<B>)
    requires f(x) == Some(v) && ReadAll(xs, f) == Ok(vs)
    ensures ReadAll([x] + xs, f) == Ok([v] + vs)
  {
    assert ([x] + xs)[0] == x && ([x] + xs)[1..] == xs;
  }

  /** Nothing stops a stem from being negative: after `-3.csv` alone comes `-2.csv`. */
  lemma NegativeStem()
    ensures NextFileNumber(["-3"]) == Ok(-2)
  {
    PyInt.ParseShow(-3);
    assert PyInt.Show(-3) == "-3";
    ReadCons(PyInt.ParseInt, "-3", [], -3, []);
    assert ["-3"] + [] == ["-3"] && [-3] + [] == [-3];
  }

  /** In an empty folder the first file is `1.csv`. */
  lemma FirstFile()
    ensures NextFileNumber([]) == Ok(1)
    ensures PathOf(PyInt.Show(1)) == "data/maxjeune/1.csv"
  {
  }

  /** No two files of the folder share a stem. */
  ghost predicate DistinctStems(files: seq<CsvFile>)
  {
    forall i, j :: 0 <= i < j < |files| ==> files[i].stem != files[j].stem
  }

  /** The stems of files, in listing order. */
  function StemsOf(files: seq<CsvFile>): (s: seq<string>)
    ensures |s| == |files|
    ensures forall i :: 0 <= i < |files| ==> s[i] == files[i].stem
  {
    seq(|files|, i requires 0 <= i < |files| => files[i].stem)
  }

  /** The `data/maxjeune` folder: its `*.csv` files in the order a listing gives them. */
  class SnapshotFolder {
    var files: seq<CsvFile>

    ghost predicate Valid()
      reads this
    {
      DistinctStems(files)
    }

    /** `mkdir(exist_ok=True, parents=True)`: the folder as found, empty when it was absent. */
    constructor (existing: seq<CsvFile>)
      requires DistinctStems(existing)
      ensures Valid() && files == existing
    {
      files := existing;
    }

    /** `download_maxjeune()` given the fetched table and the current time: allocate the next
        number and, when that succeeds, add the stamped table as `<n>.csv`. Files already
        present are never changed. */
    method Download(data: seq<UpstreamRow>, now: Timestamp) returns (r: Result<int, AllocError>)
      requires Valid()
      modifies this
      ensures Valid()
      ensures r == NextFileNumber(StemsOf(old(files)))
      ensures r.Ok? ==> files == old(files) + [CsvFile(PyInt.Show(r.value), Stamp(data, now))]
      ensures r.Err? ==> files == old(files)
    {
      r := NextFileNumber(StemsOf(files));
      if r.Ok? {
        var stem := PyInt.Show(r.value);
        NoCollision(StemsOf(files));
        assert forall i :: 0 <= i < |files| ==> files[i].stem != stem by {
          forall i | 0 <= i < |files| ensures files[i].stem != stem {
            assert StemsOf(files)[i] in StemsOf(files);
          }
        }
        files := files + [CsvFile(stem, Stamp(data, now))];
      }
    }
  }
}
