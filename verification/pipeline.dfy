/** `create_cluster(app_name)`: clean and filter the reviews, key each one
    by the release it belongs to, cluster every large enough bucket, label
    every cluster from its top terms, and record the accepted clusters.

    The review and release tables, the sentence embedding with HDBSCAN,
    the TF-IDF top terms and the English word list are inputs. */
module Pipeline {
  import opened Wrappers
  import opened Seqs
  import opened Versions
  import opened Cleaning
  import opened Labels
  import opened DateBins

  // ---------------------------------------------------------------------
  // Tables and results.
  // ---------------------------------------------------------------------

  /** One row of the review table: rating, review date (`None` when it does
      not parse), app version (`None` when missing) and text (`None` when
      it is not a string). */
  datatype Review = Review(score: int, at: Option<Instant>, appVersion: Option<string>, content: Option<string>)

  /** One row of the release table: date (`None` when it does not parse)
      and version (`None` when missing). */
  datatype Release = Release(date: Option<Instant>, version: Option<string>)

  /** The app being processed; any other name keys nothing. */
  datatype App = Zoom | Webex | Firefox | Other

  /** A value of the `clean_version` column: a version string, or for
      Firefox the date of the release a review falls after. */
  datatype Key = VersionKey(name: string) | DateKey(date: Instant)

  /** A review kept by the cleaning step, with its row index in the review
      table and its cleaned text. */
  datatype Prepared = Prepared(index: nat, review: Review, text: string)

  /** A prepared review with its `clean_version`; `None` never matches. */
  datatype Entry = Entry(item: Prepared, key: Option<Key>)

  /** An entry of a bucket with the cluster HDBSCAN gave it. */
  datatype Member = Member(entry: Entry, cluster: int)

  /** A row of the clustered-reviews table. */
  datatype Row = Row(member: Member, clusterLabel: string)

  /** A row of the cluster-summary table; the average score is
      `scoreSum / numReviews`. */
  datatype Summary = Summary(version: Key, clusterId: int, clusterLabel: string, numReviews: nat, scoreSum: int)

  /** What one accepted cluster contributes to the two tables. */
  datatype Block = Block(summary: Summary, rows: seq<Row>)

  /** The foreign steps: embedding followed by HDBSCAN (one cluster id per
      text, `-1` for noise), the TF-IDF feature names, and the English word
      list. */
  datatype Models = Models(cluster: seq<string> -> seq<int>, topTerms: seq<string> -> seq<string>, english: set<string>)

  /** The ways the run stops with an exception. */
  datatype Error =
    | BinError(cause: CutError)          // `pd.cut` refuses the release dates
    | ClusterCountMismatch(version: Key) // HDBSCAN gave a label list of the wrong length
    | MissingVersionColumn               // an app without a `clean_version` column

  /** Buckets with fewer reviews are not clustered. */
  const MinBucket: nat := 5

  /** HDBSCAN's noise label. */
  const Noise: int := -1

  // ---------------------------------------------------------------------
  // Cleaning.
  // ---------------------------------------------------------------------

  /** Every review with its row index and cleaned text. */
  function Indexed(reviews: seq<Review>): (r: seq<Prepared>)
    ensures |r| == |reviews|
    ensures forall i :: 0 <= i < |r| ==> r[i] == Prepared(i, reviews[i], CleanText(reviews[i].content))
  {
    seq(|reviews|, i requires 0 <= i < |reviews| => Prepared(i, reviews[i], CleanText(reviews[i].content)))
  }

  /** A review survives when it has an app version and informative text. */
  predicate Keep(p: Prepared) {
    p.review.appVersion.Some? && IsInformative(p.text)
  }

  /** Drop the reviews without a version, clean the texts, keep the
      informative ones. */
  function Prepare(reviews: seq<Review>): (r: seq<Prepared>)
    ensures forall p :: p in r ==> Keep(p)
  {
    Filter(Indexed(reviews), Keep)
  }

  // ---------------------------------------------------------------------
  // Keys.
  // ---------------------------------------------------------------------

  /** `str(v)`: a missing value prints as `nan`. */
  function VersionText(v: Option<string>): string {
    if v.Some? then v.value else "nan"
  }

  /** The key of a Zoom or Webex review: Zoom uses `clean_version`, Webex
      `extract_major_minor` of the app version. */
  function VersionKeyOf(app: App, p: Prepared): Option<Key> {
    match app
    case Zoom => Some(VersionKey(CleanVersion(VersionText(p.review.appVersion))))
    case Webex =>
      (match ExtractMajorMinor(VersionText(p.review.appVersion))
       case Some(m) => Some(VersionKey(m))
       case None => None)
    case _ => None
  }

  /** `p` comes no later than `q` when sorting by date, unparsable dates last. */
  predicate NotAfter(p: Prepared, q: Prepared) {
    q.review.at.None? || (p.review.at.Some? && p.review.at.value <= q.review.at.value)
  }

  predicate SortedByDate(s: seq<Prepared>) {
    forall i, j :: 0 <= i < j < |s| ==> NotAfter(s[i], s[j])
  }

  /** Insert `p` after every element that does not come after it. */
  function InsertByDate(p: Prepared, s: seq<Prepared>): (r: seq<Prepared>)
    ensures multiset(r) == multiset(s) + multiset{p}
  {
    if |s| == 0 then [p]
    else if !NotAfter(s[0], p) then [p] + s
    else
      assert s == [s[0]] + s[1..];
      [s[0]] + InsertByDate(p, s[1..])
  }

  /** `sort_values` on the review date, as repeated insertion. */
  function SortByDate(s: seq<Prepared>): (r: seq<Prepared>)
    ensures multiset(r) == multiset(s)
    decreases |s|
  {
    if |s| == 0 then []
    else
      assert s == s[..|s| - 1] + [s[|s| - 1]];
      InsertByDate(s[|s| - 1], SortByDate(s[..|s| - 1]))
  }

  /** A review no later than any of a sorted list may go in front of it. */
  lemma SortedCons(x: Prepared, t: seq<Prepared>)
    requires SortedByDate(t)
    requires forall y :: y in t ==> NotAfter(x, y)
    ensures SortedByDate([x] + t)
  {
    var r := [x] + t;
    forall i, j | 0 <= i < j < |r| ensures NotAfter(r[i], r[j]) {
      if i == 0 {
        assert r[j] in t;
      } else {
        assert r[i] == t[i - 1] && r[j] == t[j - 1];
      }
    }
  }

  lemma {:induction false} InsertByDateSorted(p: Prepared, s: seq<Prepared>)
    requires SortedByDate(s)
    ensures SortedByDate(InsertByDate(p, s))
    decreases |s|
  {
    if |s| > 0 {
      if !NotAfter(s[0], p) {
        forall y | y in s ensures NotAfter(p, y) {
          var j :| 0 <= j < |s| && s[j] == y;
          assert NotAfter(s[0], s[j]);
        }
        SortedCons(p, s);
      } else {
        var t := InsertByDate(p, s[1..]);
        InsertByDateSorted(p, s[1..]);
        assert SortedByDate(s[1..]) by {
          forall i, j | 0 <= i < j < |s[1..]| ensures NotAfter(s[1..][i], s[1..][j]) {
            assert s[1..][i] == s[i + 1] && s[1..][j] == s[j + 1];
          }
        }
        forall x | x in t ensures NotAfter(s[0], x) {
          assert x in multiset(t);
          if x != p {
            assert x in s[1..];
          }
        }
        SortedCons(s[0], t);
      }
    }
  }

  /** The sorted reviews are in date order, unparsable dates last. */
  lemma {:induction false} SortByDateSorted(s: seq<Prepared>)
    ensures SortedByDate(SortByDate(s))
    decreases |s|
  {
    if |s| > 0 {
      SortByDateSorted(s[..|s| - 1]);
      InsertByDateSorted(s[|s| - 1], SortByDate(s[..|s| - 1]));
    }
  }

  function DateOf(p: Prepared): Option<Instant> {
    p.review.at
  }

  /** The Firefox key of a review: the release-date bin it falls in. */
  function DateKeyOf(bin: Option<Instant>): Option<Key> {
    if bin.Some? then Some(DateKey(bin.value)) else None
  }

  /** The release-date column. */
  function ReleaseDateColumn(releases: seq<Release>): seq<Option<Instant>> {
    seq(|releases|, i requires 0 <= i < |releases| => releases[i].date)
  }

  /** The `clean_version` column of the reviews. Firefox sorts the reviews
      by date first and bins them by release date. */
  function KeyReviews(app: App, ps: seq<Prepared>, releases: seq<Release>): (r: Result<seq<Entry>, Error>)
    ensures r.Failure? ==> app == Firefox
  {
    if app == Firefox then
      var sorted := SortByDate(ps);
      match Cut(Map(sorted, DateOf), ReleaseDateColumn(releases))
      case Failure(e) => Failure(BinError(e))
      case Success(bins) =>
        Success(seq(|sorted|, i requires 0 <= i < |sorted| => Entry(sorted[i], DateKeyOf(bins[i]))))
    else
      Success(seq(|ps|, i requires 0 <= i < |ps| => Entry(ps[i], VersionKeyOf(app, ps[i]))))
  }

  /** The `clean_version` column of the releases: the date for Firefox,
      `clean_version` of the version text for every other app. */
  function ReleaseKey(app: App, r: Release): Option<Key> {
    if app == Firefox then (if r.date.Some? then Some(DateKey(r.date.value)) else None)
    else Some(VersionKey(CleanVersion(VersionText(r.version))))
  }

  function ReleaseKeys(app: App, releases: seq<Release>): seq<Option<Key>> {
    seq(|releases|, i requires 0 <= i < |releases| => ReleaseKey(app, releases[i]))
  }

  /** The values present, in order (`dropna()`). */
  function Somes<T(!new)>(s: seq<Option<T>>): (r: seq<T>)
    ensures forall x :: x in r <==> Some(x) in s
  {
    if |s| == 0 then []
    else
      assert s == [s[0]] + s[1..];
      (if s[0].Some? then [s[0].value] else []) + Somes(s[1..])
  }

  /** `releases['clean_version'].dropna().unique()`: the keys to process,
      in order of first appearance. */
  function VersionList(app: App, releases: seq<Release>): (vs: seq<Key>)
    ensures NoDup(vs)
    ensures forall k :: k in vs <==> Some(k) in ReleaseKeys(app, releases)
    ensures forall i, j :: 0 <= i < j < |vs| ==>
      IndexOf(ReleaseKeys(app, releases), Some(vs[i])) < IndexOf(ReleaseKeys(app, releases), Some(vs[j]))
  {
    var keys := ReleaseKeys(app, releases);
    SomesOrder(keys);
    Unique(Somes(keys))
  }

  /** `dropna()` keeps the order in which values first appear. */
  lemma SomesOrder<T(!new)>(s: seq<Option<T>>)
    ensures forall x, y :: x in Somes(s) && y in Somes(s) && IndexOf(Somes(s), x) < IndexOf(Somes(s), y) ==>
      IndexOf(s, Some(x)) < IndexOf(s, Some(y))
  {
    forall x, y | x in Somes(s) && y in Somes(s) && IndexOf(Somes(s), x) < IndexOf(Somes(s), y)
      ensures IndexOf(s, Some(x)) < IndexOf(s, Some(y))
    {
      SomesIndexOrder(s, x, y);
    }
  }

  lemma {:induction false} SomesIndexOrder<T(!new)>(s: seq<Option<T>>, x: T, y: T)
    requires x in Somes(s) && y in Somes(s) && IndexOf(Somes(s), x) < IndexOf(Somes(s), y)
    ensures IndexOf(s, Some(x)) < IndexOf(s, Some(y))
    decreases |s|
  {
    assert x != y;
    var t := Somes(s[1..]);
    if s[0] == Some(x) {
      IndexOfTail(s, Some(y));
    } else if s[0].Some? {
      var a := s[0].value;
      assert Somes(s) == [a] + t;
      assert a != x && a != y;
      IndexOfCons(a, t, x);
      IndexOfCons(a, t, y);
      SomesIndexOrder(s[1..], x, y);
      IndexOfTail(s, Some(x));
      IndexOfTail(s, Some(y));
    } else {
      assert Somes(s) == t;
      SomesIndexOrder(s[1..], x, y);
      IndexOfTail(s, Some(x));
      IndexOfTail(s, Some(y));
    }
  }

  // ---------------------------------------------------------------------
  // Buckets and clusters.
  // ---------------------------------------------------------------------

  function HasKey(v: Key): Entry -> bool {
    (e: Entry) => e.key == Some(v)
  }

  /** `reviews[reviews['clean_version'] == version]`. */
  function Bucket(entries: seq<Entry>, v: Key): (b: seq<Entry>)
    ensures forall e :: e in b <==> e in entries && e.key == Some(v)
  {
    Filter(entries, HasKey(v))
  }

  function EntryText(e: Entry): string {
    e.item.text
  }

  /** Attach HDBSCAN's labels to the bucket, position by position. */
  function Assign(bucket: seq<Entry>, ids: seq<int>): (ms: seq<Member>)
    requires |ids| == |bucket|
    ensures |ms| == |bucket|
    ensures forall i :: 0 <= i < |ms| ==> ms[i] == Member(bucket[i], ids[i])
  {
    seq(|bucket|, i requires 0 <= i < |bucket| => Member(bucket[i], ids[i]))
  }

  const NotNoise: Member -> bool := (m: Member) => m.cluster != Noise

  /** The members of one cluster. */
  function InCluster(id: int): Member -> bool {
    (m: Member) => m.cluster == id
  }

  function Subset(clustered: seq<Member>, id: int): (s: seq<Member>)
    ensures forall m :: m in s <==> m in clustered && m.cluster == id
  {
    Filter(clustered, InCluster(id))
  }

  function ClusterOf(m: Member): int {
    m.cluster
  }

  /** `sorted(clustered_reviews['cluster'].unique())`. */
  function ClusterIds(clustered: seq<Member>): (ids: seq<int>)
    ensures Increasing(ids)
    ensures forall id :: id in ids <==> id in Map(clustered, ClusterOf)
  {
    SortedUnique(Map(clustered, ClusterOf))
  }

  function MemberText(m: Member): string {
    m.entry.item.text
  }

  /** A text the phrase extraction may use. */
  predicate IsCorpusText(t: string) {
    t !in Boring && IsInformative(t)
  }

  /** The texts the top terms are extracted from. */
  function Corpus(subset: seq<Member>): (c: seq<string>)
    ensures forall t :: t in c ==> IsCorpusText(t)
  {
    Filter(Map(subset, MemberText), IsCorpusText)
  }

  function ScoreSum(ms: seq<Member>): int {
    if |ms| == 0 then 0 else ms[0].entry.item.review.score + ScoreSum(ms[1..])
  }

  /** The cluster's reviews with the label column added. */
  function LabelRows(ms: seq<Member>, clusterLabel: string): (rows: seq<Row>)
    ensures |rows| == |ms|
    ensures forall i :: 0 <= i < |rows| ==> rows[i] == Row(ms[i], clusterLabel)
  {
    seq(|ms|, i requires 0 <= i < |ms| => Row(ms[i], clusterLabel))
  }

  /** One cluster: no block when no text is left for the phrase extraction
      or when the label fails the dictionary check. */
  function ClusterBlock(v: Key, id: int, clustered: seq<Member>, models: Models): (b: Option<Block>)
    ensures b.Some? ==> IsValidLabel(b.value.summary.clusterLabel, models.english, DefaultThreshold)
    ensures b.Some? ==> b.value.summary.numReviews == |b.value.rows| > 0
    ensures b.Some? ==> forall r :: r in b.value.rows ==>
      r.member in clustered && r.member.cluster == id && r.clusterLabel == b.value.summary.clusterLabel
  {
    var subset := Subset(clustered, id);
    var corpus := Corpus(subset);
    if |corpus| == 0 then None
    else
      var phrase := JoinTerms(models.topTerms(corpus));
      if !IsValidLabel(phrase, models.english, DefaultThreshold) then None
      else Some(Block(Summary(v, id, phrase, |subset|, ScoreSum(subset)), LabelRows(subset, phrase)))
  }

  /** The clusters in the given order. */
  function ClusterBlocks(v: Key, ids: seq<int>, clustered: seq<Member>, models: Models): seq<Block> {
    if |ids| == 0 then []
    else
      (match ClusterBlock(v, ids[0], clustered, models) case Some(b) => [b] case None => [])
      + ClusterBlocks(v, ids[1..], clustered, models)
  }

  /** One version: skipped below five reviews, clustered otherwise, noise
      dropped, clusters visited in ascending id order. */
  function BucketBlocks(v: Key, entries: seq<Entry>, models: Models): (r: Result<seq<Block>, Error>)
    ensures |Bucket(entries, v)| < MinBucket ==> r == Success([])
    ensures r.Failure? ==> r.error == ClusterCountMismatch(v)
  {
    var bucket := Bucket(entries, v);
    if |bucket| < MinBucket then Success([])
    else
      var ids := models.cluster(Map(bucket, EntryText));
      if |ids| != |bucket| then Failure(ClusterCountMismatch(v))
      else
        var clustered := Filter(Assign(bucket, ids), NotNoise);
        if |clustered| == 0 then Success([])
        else Success(ClusterBlocks(v, ClusterIds(clustered), clustered, models))
  }

  /** Every version in turn; the first exception ends the run. */
  function VersionBlocks(vs: seq<Key>, entries: seq<Entry>, models: Models): (r: Result<seq<Block>, Error>)
    ensures r.Failure? ==> r.error.ClusterCountMismatch? && r.error.version in vs
  {
    if |vs| == 0 then Success([])
    else
      match BucketBlocks(vs[0], entries, models)
      case Failure(e) => Failure(e)
      case Success(bs) =>
        match VersionBlocks(vs[1..], entries, models)
        case Failure(e) => Failure(e)
        case Success(rest) => Success(bs + rest)
  }

  /** The whole run for one app. An app other than the three known ones
      never gets a `clean_version` review column, so the first version
      looked up raises. */
  function CreateCluster(app: App, reviews: seq<Review>, releases: seq<Release>, models: Models)
    : (r: Result<seq<Block>, Error>)
    ensures r.Failure? ==>
      || (app == Firefox && r.error.BinError?)
      || (app == Other && r.error == MissingVersionColumn)
      || (r.error.ClusterCountMismatch? && r.error.version in VersionList(app, releases))
  {
    var prepared := Prepare(reviews);
    match KeyReviews(app, prepared, releases)
    case Failure(e) => Failure(e)
    case Success(entries) =>
      var vs := VersionList(app, releases);
      if app == Other then (if |vs| == 0 then Success([]) else Failure(MissingVersionColumn))
      else VersionBlocks(vs, entries, models)
  }

  // ---------------------------------------------------------------------
  // The two output tables.
  // ---------------------------------------------------------------------

  function SummaryOf(b: Block): Summary {
    b.summary
  }

  /** The cluster-summary table. */
  function Summaries(blocks: seq<Block>): seq<Summary> {
    Map(blocks, SummaryOf)
  }

  /** The clustered-reviews table. */
  function LabelledRows(blocks: seq<Block>): seq<Row> {
    if |blocks| == 0 then [] else blocks[0].rows + LabelledRows(blocks[1..])
  }
}
