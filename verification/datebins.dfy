/** Firefox release binning: `pd.cut(review_dates, bins=release_dates +
    [Timestamp.max], labels=..., right=False)`. Timestamps are nanoseconds
    since the Unix epoch, and an unparsable date (`NaT`) is `None`. */
module DateBins {
  import opened Wrappers
  import opened Seqs

  /** `pd.Timestamp.min` and `pd.Timestamp.max` in nanoseconds; the 64-bit
      value just below the minimum is reserved for `NaT`. */
  const TimestampMin: int := -0x7FFF_FFFF_FFFF_FFFF
  const TimestampMax: int := 0x7FFF_FFFF_FFFF_FFFF

  type Instant = t: int | TimestampMin <= t <= TimestampMax

  /** `dropna()`: the parsed dates, in order. */
  function Present(ds: seq<Option<Instant>>): (r: seq<int>)
    ensures forall t: int :: t in r ==> TimestampMin <= t <= TimestampMax
    ensures forall t: Instant :: t in r <==> Some(t) in ds
  {
    if |ds| == 0 then []
    else (if ds[0].Some? then [ds[0].value as int] else []) + Present(ds[1..])
  }

  /** The distinct parsed release dates in ascending order. */
  function ReleaseDates(ds: seq<Option<Instant>>): (r: seq<Instant>)
    ensures Increasing(r)
    ensures forall t: Instant :: t in r <==> Some(t) in ds
  {
    var su := SortedUnique(Present(ds));
    assert forall i :: 0 <= i < |su| ==> su[i] in Present(ds);
    su
  }

  /** The bin edges: the release dates, then `Timestamp.max`. */
  function Edges(ds: seq<Option<Instant>>): (e: seq<int>)
    ensures |e| == |ReleaseDates(ds)| + 1 && e[|e| - 1] == TimestampMax
    ensures forall j :: 0 <= j < |e| - 1 ==> e[j] == ReleaseDates(ds)[j]
  {
    ReleaseDates(ds) + [TimestampMax]
  }

  /** `searchsorted(t, side='right')` on ascending edges: the number of
      leading edges at or before `t`. */
  function SearchRight(e: seq<int>, t: int): (i: nat)
    ensures i <= |e|
    ensures forall j :: 0 <= j < i ==> e[j] <= t
    ensures i < |e| ==> t < e[i]
  {
    if |e| == 0 || t < e[0] then 0 else 1 + SearchRight(e[1..], t)
  }

  /** On strictly increasing edges, an edge is at or before `t` exactly when
      it comes before the search position. */
  lemma SearchRightIncreasing(e: seq<int>, t: int, j: int)
    requires Increasing(e) && 0 <= j < |e|
    ensures e[j] <= t <==> j < SearchRight(e, t)
  {
    var i := SearchRight(e, t);
    if i <= j {
      assert e[i] <= e[j];
    }
  }

  /** The failures `pd.cut` raises on these inputs. */
  datatype CutError =
    | DuplicateEdges      // "Bin edges must be unique"
    | LabelCountMismatch  // "Bin labels must be one fewer than the number of bin edges"

  /** The bin of one value: `NaN` for a missing value, for a value before
      the first edge and for a value at or after the last edge; otherwise
      the label of the interval `[e[i-1], e[i])` holding it. */
  function BinOf<L>(e: seq<int>, labels: seq<L>, t: Option<int>): (r: Option<L>)
    requires |labels| == |e| - 1
    ensures r.Some? ==> t.Some?
  {
    match t
    case None => None
    case Some(x) =>
      var i := SearchRight(e, x);
      if i == 0 || i == |e| then None else Some(labels[i - 1])
  }

  /** The checks `pd.cut` makes before binning: equal edges are refused
      unless there are exactly two of them, then the label count must be
      one fewer than the edge count. */
  function CheckCut(e: seq<int>, labelCount: nat): (r: Option<CutError>)
    ensures r.None? <==> (NoDup(e) || |e| == 2) && labelCount == |e| - 1
  {
    if !NoDup(e) && |e| != 2 then Some(DuplicateEdges)
    else if labelCount != |e| - 1 then Some(LabelCountMismatch)
    else None
  }

  /** A bin whose label is `NaT` is no bin. */
  function Flatten<T>(o: Option<Option<T>>): Option<T> {
    if o.Some? then o.value else None
  }

  /** The labels as the source passes them: the release-date column sorted
      (`NaT` last) and de-duplicated, so an unparsable release date adds a
      `NaT` label that has no interval of its own. */
  function LabelsAsWritten(ds: seq<Option<Instant>>): (r: seq<Option<Instant>>)
    ensures |r| == |ReleaseDates(ds)| + (if None in ds then 1 else 0)
    ensures forall k :: 0 <= k < |ReleaseDates(ds)| ==> r[k] == Some(ReleaseDates(ds)[k])
  {
    var rd := ReleaseDates(ds);
    seq(|rd|, k requires 0 <= k < |rd| => Some(rd[k])) + (if None in ds then [None] else [])
  }

  /** The binning as written. */
  function CutAsWritten(times: seq<Option<Instant>>, ds: seq<Option<Instant>>)
    : (r: Result<seq<Option<Instant>>, CutError>)
    ensures r.Success? ==> |r.value| == |times|
    ensures None in ds ==> r.Failure?
  {
    var e := Edges(ds);
    var labels := LabelsAsWritten(ds);
    match CheckCut(e, |labels|)
    case Some(err) => Failure(err)
    case None =>
      Success(seq(|times|, k requires 0 <= k < |times| => Flatten(BinOf(e, labels, times[k]))))
  }

  /** The binning as intended: each interval is labelled by the release
      date that opens it. */
  function Cut(times: seq<Option<Instant>>, ds: seq<Option<Instant>>)
    : (r: Result<seq<Option<Instant>>, CutError>)
    ensures r.Success? ==> |r.value| == |times|
    ensures r.Success? ==> forall k :: 0 <= k < |r.value| && r.value[k].Some? ==> Some(r.value[k].value) in ds
  {
    var e := Edges(ds);
    var labels := ReleaseDates(ds);
    match CheckCut(e, |labels|)
    case Some(err) => Failure(err)
    case None => Success(seq(|times|, k requires 0 <= k < |times| => BinOf(e, labels, times[k])))
  }

  // ---------------------------------------------------------------------
  // When the binning fails.
  // ---------------------------------------------------------------------

  /** Increasing dates followed by a bound are duplicate-free exactly when
      the bound is not among them. */
  lemma EdgesNoDup(r: seq<int>, top: int)
    requires Increasing(r)
    ensures NoDup(r + [top]) <==> top !in r
  {
    var e := r + [top];
    if top in r {
      var m := IndexOf(r, top);
      assert m < |e| - 1 && e[m] == e[|e| - 1];
    } else {
      forall i, j | 0 <= i < j < |e| ensures e[i] != e[j] {
        if j == |r| {
          assert e[i] in r;
        }
      }
    }
  }

  /** An increasing sequence with a single distinct value has one element. */
  lemma IncreasingSingleton(r: seq<int>, x: int)
    requires Increasing(r) && x in r && forall y :: y in r ==> y == x
    ensures r == [x]
  {
    if |r| > 1 {
      FirstTwo(r);
    }
  }

  lemma FirstTwo(r: seq<int>)
    requires Increasing(r) && |r| > 1
    ensures r[0] in r && r[1] in r && r[0] < r[1]
  {
  }

  /** The only failure left is a release dated exactly `Timestamp.max`
      next to another release date. */
  lemma CutFails(times: seq<Option<Instant>>, ds: seq<Option<Instant>>)
    ensures Cut(times, ds).Failure? <==>
      Some(TimestampMax as Instant) in ds && exists d: Instant :: Some(d) in ds && d != TimestampMax
  {
    var r := ReleaseDates(ds);
    EdgesNoDup(r, TimestampMax);
    if Some(TimestampMax as Instant) in ds {
      if exists d: Instant :: Some(d) in ds && d != TimestampMax {
        var d: Instant :| Some(d) in ds && d != TimestampMax;
        assert d in r && TimestampMax in r;
        var i := IndexOf(r, d);
        var j := IndexOf(r, TimestampMax);
        assert i != j;
      } else {
        IncreasingSingleton(r, TimestampMax);
      }
    }
  }

  /** An unparsable release date makes the source's binning fail. */
  lemma NaTLabelBreaksCut(times: seq<Option<Instant>>, ds: seq<Option<Instant>>)
    requires None in ds
    ensures CutAsWritten(times, ds).Failure?
  {
  }

  /** With every release date parsed, the source's binning is the intended one. */
  lemma CutAsWrittenAgrees(times: seq<Option<Instant>>, ds: seq<Option<Instant>>)
    requires None !in ds
    ensures CutAsWritten(times, ds) == Cut(times, ds)
  {
    var e := Edges(ds);
    var rd := ReleaseDates(ds);
    var labels := LabelsAsWritten(ds);
    if CheckCut(e, |rd|).None? {
      var a := seq(|times|, k requires 0 <= k < |times| => Flatten(BinOf(e, labels, times[k])));
      var b := seq(|times|, k requires 0 <= k < |times| => BinOf(e, rd, times[k]));
      forall k | 0 <= k < |times| ensures a[k] == b[k] {
        FlattenBin(e, rd, labels, times[k]);
      }
      assert a == b;
    }
  }

  lemma FlattenBin(e: seq<int>, rd: seq<Instant>, labels: seq<Option<Instant>>, t: Option<int>)
    requires |rd| == |labels| == |e| - 1
    requires forall k :: 0 <= k < |rd| ==> labels[k] == Some(rd[k])
    ensures Flatten(BinOf(e, labels, t)) == BinOf(e, rd, t)
  {
  }

  // ---------------------------------------------------------------------
  // Which bin a review lands in.
  // ---------------------------------------------------------------------

  /** On increasing edges closed by `top`, a value lands in the bin of the
      latest edge at or before it, provided it is below `top`. */
  lemma BinOfIncreasing(r: seq<int>, top: int, t: int, d: int)
    requires Increasing(r + [top])
    ensures BinOf(r + [top], r, Some(t)) == Some(d) <==>
      t < top && d in r && d <= t && forall d' :: d' in r && d' <= t ==> d' <= d
  {
    var e := r + [top];
    var i := SearchRight(e, t);
    SearchRightIncreasing(e, t, |e| - 1);
    if BinOf(e, r, Some(t)) == Some(d) {
      SearchRightIncreasing(e, t, i - 1);
      forall d' | d' in r && d' <= t ensures d' <= d {
        var j := IndexOf(r, d');
        assert e[j] == d';
        SearchRightIncreasing(e, t, j);
      }
    }
    if t < top && d in r && d <= t && forall d' :: d' in r && d' <= t ==> d' <= d {
      var j := IndexOf(r, d);
      assert e[j] == d;
      SearchRightIncreasing(e, t, j);
      SearchRightIncreasing(e, t, i - 1);
      assert r[i - 1] == e[i - 1];
      assert r[i - 1] in r;
    }
  }

  /** With a single release at `Timestamp.max` there is no interval. */
  lemma BinOfOnlyTop(t: int)
    ensures BinOf([TimestampMax, TimestampMax], [TimestampMax], Some(t)).None?
  {
    var e := [TimestampMax, TimestampMax];
    if t < TimestampMax {
      assert SearchRight(e, t) == 0;
    } else {
      assert SearchRight(e[1..], t) == 1;
    }
  }

  /** `d` is the latest release date at or before `t`. */
  ghost predicate LatestReleaseBefore(ds: seq<Option<Instant>>, t: int, d: Instant) {
    && Some(d) in ds && d <= t
    && forall d': Instant :: Some(d') in ds && d' <= t ==> d' <= d
  }

  lemma LatestReleaseInDates(ds: seq<Option<Instant>>, t: int, d: Instant)
    ensures var r := ReleaseDates(ds);
      LatestReleaseBefore(ds, t, d) <==>
        d in r && d <= t && forall d' :: d' in r && d' <= t ==> d' <= d
  {
    var r := ReleaseDates(ds);
    if LatestReleaseBefore(ds, t, d) {
      forall d' | d' in r && d' <= t ensures d' <= d {
        var i := IndexOf(r, d');
        var x: Instant := r[i];
        assert Some(x) in ds;
      }
    }
  }

  /** A review lands in the bin of the latest release at or before it,
      unless it is at `Timestamp.max`; a review with no such release, or
      with no date, lands in no bin. */
  lemma BinSpec(times: seq<Option<Instant>>, ds: seq<Option<Instant>>, k: nat, d: Instant)
    requires Cut(times, ds).Success? && k < |times|
    ensures Cut(times, ds).value[k] == Some(d) <==>
      times[k].Some? && times[k].value < TimestampMax && LatestReleaseBefore(ds, times[k].value, d)
  {
    var r := ReleaseDates(ds);
    CutFails(times, ds);
    EdgesNoDup(r, TimestampMax);
    if times[k].Some? {
      var t := times[k].value;
      LatestReleaseInDates(ds, t, d);
      if TimestampMax in r {
        var m: Instant := TimestampMax;
        assert Some(m) in ds;
        IncreasingSingleton(r, TimestampMax);
        BinOfOnlyTop(t);
      } else {
        assert Increasing(r + [TimestampMax]) by {
          forall j | 0 <= j < |r| ensures r[j] < TimestampMax {
            assert r[j] in r;
          }
        }
        BinOfIncreasing(r, TimestampMax, t, d);
      }
    }
  }

  /** A review dated exactly on a release day goes to that release, not to
      the one before. */
  lemma BoundaryGoesToLaterRelease(times: seq<Option<Instant>>, ds: seq<Option<Instant>>, k: nat)
    requires Cut(times, ds).Success? && k < |times|
    requires times[k].Some? && times[k].value < TimestampMax && times[k] in ds
    ensures Cut(times, ds).value[k] == times[k]
  {
    BinSpec(times, ds, k, times[k].value);
  }

  /** A review before the first release, at `Timestamp.max` or without a
      date gets no bin. */
  lemma Unbinned(times: seq<Option<Instant>>, ds: seq<Option<Instant>>, k: nat)
    requires Cut(times, ds).Success? && k < |times|
    requires || times[k].None?
             || times[k].value == TimestampMax
             || forall d: Instant :: Some(d) in ds ==> times[k].value < d
    ensures Cut(times, ds).value[k].None?
  {
    if Cut(times, ds).value[k].Some? {
      BinSpec(times, ds, k, Cut(times, ds).value[k].value);
    }
  }

  /** Every bin is named after a parsed release date. */
  lemma BinIsRelease(times: seq<Option<Instant>>, ds: seq<Option<Instant>>, k: nat)
    requires Cut(times, ds).Success? && k < |times| && Cut(times, ds).value[k].Some?
    ensures Cut(times, ds).value[k] in ds
  {
    BinSpec(times, ds, k, Cut(times, ds).value[k].value);
  }

  // ---------------------------------------------------------------------
  // Examples.
  // ---------------------------------------------------------------------

  /** 2021-01-01 and 2021-02-01, midnight UTC, in nanoseconds. */
  const Jan2021: Instant := 1609459200_000000000
  const Feb2021: Instant := 1612137600_000000000

  /** One unparsable release date next to a parsed one: the source raises,
      the intended binning puts the review in the parsed release's bin. */
  lemma NaTReleaseExample(times: seq<Option<Instant>>, ds: seq<Option<Instant>>)
    requires times == [Some(Feb2021)] && ds == [Some(Jan2021), None]
    ensures CutAsWritten(times, ds) == Failure(LabelCountMismatch)
    ensures Cut(times, ds) == Success([Some(Jan2021)])
  {
    var r := ReleaseDates(ds);
    assert Jan2021 in r;
    IncreasingSingleton(r, Jan2021);
    assert Edges(ds) == [Jan2021, TimestampMax];
    assert SearchRight([Jan2021, TimestampMax][1..], Feb2021) == 0;
    assert BinOf(Edges(ds), r, times[0]) == Some(Jan2021);
    assert Cut(times, ds).value[0] == Some(Jan2021);
    assert Cut(times, ds).value == [Some(Jan2021)];
  }
}
