/** Properties of the clustering run: what the cleaning step keeps, what
    one accepted cluster contributes, which clusters and buckets are
    skipped, and how the two output tables fit together. */
module PipelineProps {
  import opened Wrappers
  import opened Seqs
  import opened Versions
  import opened Cleaning
  import opened Labels
  import opened DateBins
  import opened Pipeline

  // ---------------------------------------------------------------------
  // Cleaning.
  // ---------------------------------------------------------------------

  /** The cleaning step keeps exactly the reviews with an app version and
      informative cleaned text, each once, tagged with its row index. */
  lemma PrepareSpec(reviews: seq<Review>)
    ensures forall p :: p in Prepare(reviews) <==>
      p.index < |reviews| && p == Prepared(p.index, reviews[p.index], CleanText(reviews[p.index].content)) && Keep(p)
    ensures NoDup(Prepare(reviews))
  {
    var all := Indexed(reviews);
    forall p ensures p in all <==> p.index < |reviews| && p == all[p.index] {
      if p in all {
        var i :| 0 <= i < |all| && all[i] == p;
      }
    }
    assert NoDup(all);
    NoDupSub(Prepare(reviews), all);
  }

  function ItemOf(e: Entry): Prepared {
    e.item
  }

  /** Keying keeps every prepared review once: the entries' reviews are a
      permutation of the prepared ones, for Firefox in date order. */
  lemma KeyReviewsSpec(app: App, ps: seq<Prepared>, releases: seq<Release>)
    requires KeyReviews(app, ps, releases).Success?
    ensures multiset(Map(KeyReviews(app, ps, releases).value, ItemOf)) == multiset(ps)
    ensures app == Firefox ==> SortedByDate(Map(KeyReviews(app, ps, releases).value, ItemOf))
    ensures app != Firefox ==> Map(KeyReviews(app, ps, releases).value, ItemOf) == ps
  {
    var es := KeyReviews(app, ps, releases).value;
    if app == Firefox {
      assert Map(es, ItemOf) == SortByDate(ps);
      SortByDateSorted(ps);
    } else {
      assert Map(es, ItemOf) == ps;
    }
  }

  /** Distinct reviews give distinct entries. */
  lemma EntriesNoDup(es: seq<Entry>)
    requires NoDup(Map(es, ItemOf))
    ensures NoDup(es)
  {
    forall i, j | 0 <= i < j < |es| ensures es[i] != es[j] {
      assert Map(es, ItemOf)[i] != Map(es, ItemOf)[j];
    }
  }

  /** A Firefox review dated on a release day is keyed by that release, one
      dated before the first release or unparsable by nothing. */
  lemma FirefoxKeys(ps: seq<Prepared>, releases: seq<Release>, i: nat)
    requires KeyReviews(Firefox, ps, releases).Success?
    requires i < |KeyReviews(Firefox, ps, releases).value|
    ensures var e := KeyReviews(Firefox, ps, releases).value[i];
      forall d: Instant :: e.key == Some(DateKey(d)) <==>
        e.item.review.at.Some? && e.item.review.at.value < TimestampMax
        && LatestReleaseBefore(ReleaseDateColumn(releases), e.item.review.at.value, d)
  {
    var sorted := SortByDate(ps);
    var times := Map(sorted, DateOf);
    var ds := ReleaseDateColumn(releases);
    forall d: Instant ensures KeyReviews(Firefox, ps, releases).value[i].key == Some(DateKey(d)) <==>
        times[i].Some? && times[i].value < TimestampMax && LatestReleaseBefore(ds, times[i].value, d)
    {
      BinSpec(times, ds, i, d);
    }
  }

  // ---------------------------------------------------------------------
  // One cluster.
  // ---------------------------------------------------------------------

  function MemberOf(r: Row): Member {
    r.member
  }

  function EntryOf(m: Member): Entry {
    m.entry
  }

  /** The members behind a list of rows. */
  function Members(rows: seq<Row>): seq<Member> {
    Map(rows, MemberOf)
  }

  /** The reviews behind a list of rows. */
  function RowEntries(rows: seq<Row>): seq<Entry> {
    Map(Members(rows), EntryOf)
  }

  /** What an accepted cluster `id` of version `v` records: some of its
      texts are left for the phrase extraction, the summary carries the
      joined top terms of those texts as its label and that label passes
      the check, there is one row per member of the cluster in the
      clustered order, each carrying the label, and the summary counts
      the members and totals their ratings. */
  ghost predicate BlockOf(b: Block, v: Key, id: int, clustered: seq<Member>, models: Models) {
    var subset := Subset(clustered, id);
    var corpus := Corpus(subset);
    && b.summary.version == v
    && b.summary.clusterId == id
    && |corpus| > 0
    && b.summary.clusterLabel == JoinTerms(models.topTerms(corpus))
    && IsValidLabel(b.summary.clusterLabel, models.english, DefaultThreshold)
    && Members(b.rows) == subset
    && (forall r :: r in b.rows ==> r.clusterLabel == b.summary.clusterLabel)
    && b.summary.numReviews == |b.rows|
    && b.summary.scoreSum == ScoreSum(subset)
  }

  /** The block a cluster yields is exactly the one `BlockOf` describes:
      all of its members and no other review, the label computed from its
      texts, the member count and the rating total. The average score is
      over all of its members, not only over the texts the label came
      from. */
  lemma ClusterBlockSpec(v: Key, id: int, clustered: seq<Member>, models: Models, b: Block)
    ensures ClusterBlock(v, id, clustered, models) == Some(b) <==> BlockOf(b, v, id, clustered, models)
  {
    var subset := Subset(clustered, id);
    var corpus := Corpus(subset);
    if ClusterBlock(v, id, clustered, models) == Some(b) {
      assert Members(b.rows) == subset;
    }
    if BlockOf(b, v, id, clustered, models) {
      var phrase := JoinTerms(models.topTerms(corpus));
      var rows := LabelRows(subset, phrase);
      assert |b.rows| == |Members(b.rows)| == |subset|;
      forall i | 0 <= i < |b.rows| ensures b.rows[i] == rows[i] {
        assert b.rows[i] in b.rows;
        assert Members(b.rows)[i] == b.rows[i].member;
      }
      assert b.rows == rows;
      assert b.summary == Summary(v, id, phrase, |subset|, ScoreSum(subset));
    }
  }

  /** A cluster whose label fails the check leaves no trace in either table. */
  lemma InvalidLabelSkipped(v: Key, id: int, clustered: seq<Member>, models: Models)
    requires |Corpus(Subset(clustered, id))| > 0
    requires !IsValidLabel(JoinTerms(models.topTerms(Corpus(Subset(clustered, id)))), models.english, DefaultThreshold)
    ensures ClusterBlock(v, id, clustered, models).None?
  {
  }

  /** No boring phrase is informative, so on cleaned reviews the phrase
      filter keeps every text: the corpus of a non-empty cluster is never
      empty. */
  lemma CorpusKeepsEverything(subset: seq<Member>)
    requires forall m :: m in subset ==> IsInformative(m.entry.item.text)
    ensures Corpus(subset) == Map(subset, MemberText)
  {
    var texts := Map(subset, MemberText);
    forall t | t in texts ensures IsCorpusText(t) {
      var i :| 0 <= i < |texts| && texts[i] == t;
      assert subset[i] in subset;
      if t in Boring {
        BoringNotInformative(t);
      }
    }
    FilterAll(texts, IsCorpusText);
  }

  /** The one skip that depends on the label: a cluster of cleaned reviews
      is recorded exactly when its label passes the check. */
  lemma ClusterAcceptedIff(v: Key, id: int, clustered: seq<Member>, models: Models)
    requires forall m :: m in clustered ==> IsInformative(m.entry.item.text)
    requires exists m :: m in clustered && m.cluster == id
    ensures ClusterBlock(v, id, clustered, models).Some? <==>
      IsValidLabel(JoinTerms(models.topTerms(Map(Subset(clustered, id), MemberText))), models.english, DefaultThreshold)
  {
    var subset := Subset(clustered, id);
    CorpusKeepsEverything(subset);
    var m :| m in clustered && m.cluster == id;
    assert m in subset;
  }

  // ---------------------------------------------------------------------
  // The clusters of one bucket.
  // ---------------------------------------------------------------------

  lemma {:induction false} LabelledRowsAppend(a: seq<Block>, b: seq<Block>)
    ensures LabelledRows(a + b) == LabelledRows(a) + LabelledRows(b)
    decreases |a|
  {
    if |a| == 0 {
      assert a + b == b;
    } else {
      assert (a + b)[1..] == a[1..] + b;
      LabelledRowsAppend(a[1..], b);
    }
  }

  function IdOf(b: Block): int {
    b.summary.clusterId
  }

  /** The block of the first id, if any, followed by the others. */
  function FirstBlock(v: Key, ids: seq<int>, clustered: seq<Member>, models: Models): (r: seq<Block>)
    requires |ids| > 0
    ensures ClusterBlocks(v, ids, clustered, models) == r + ClusterBlocks(v, ids[1..], clustered, models)
  {
    match ClusterBlock(v, ids[0], clustered, models) case Some(b) => [b] case None => []
  }

  lemma {:induction false} ClusterBlocksIds(v: Key, ids: seq<int>, clustered: seq<Member>, models: Models)
    ensures forall b :: b in ClusterBlocks(v, ids, clustered, models) ==>
      b.summary.version == v && b.summary.clusterId in ids
    decreases |ids|
  {
    if |ids| > 0 {
      ClusterBlocksIds(v, ids[1..], clustered, models);
    }
  }

  /** The blocks of a list of cluster ids are exactly the accepted
      clusters among those ids. */
  lemma {:induction false} ClusterBlocksRecorded(v: Key, ids: seq<int>, clustered: seq<Member>, models: Models)
    ensures forall b :: b in ClusterBlocks(v, ids, clustered, models) <==>
      b.summary.clusterId in ids && BlockOf(b, v, b.summary.clusterId, clustered, models)
    decreases |ids|
  {
    if |ids| > 0 {
      var head := FirstBlock(v, ids, clustered, models);
      ClusterBlocksRecorded(v, ids[1..], clustered, models);
      forall b ensures b in head <==> b.summary.clusterId == ids[0] && BlockOf(b, v, b.summary.clusterId, clustered, models) {
        ClusterBlockSpec(v, ids[0], clustered, models, b);
      }
    }
  }

  /** Clusters come out in ascending id order. */
  lemma {:induction false} ClusterBlocksIncreasing(v: Key, ids: seq<int>, clustered: seq<Member>, models: Models)
    requires Increasing(ids)
    ensures Increasing(Map(ClusterBlocks(v, ids, clustered, models), IdOf))
    decreases |ids|
  {
    if |ids| > 0 {
      var head := FirstBlock(v, ids, clustered, models);
      var rest := ClusterBlocks(v, ids[1..], clustered, models);
      ClusterBlocksIncreasing(v, ids[1..], clustered, models);
      ClusterBlocksIds(v, ids[1..], clustered, models);
      forall i, j | 0 <= i < |head| && 0 <= j < |rest| ensures Map(head, IdOf)[i] < Map(rest, IdOf)[j] {
        assert rest[j] in rest;
      }
      MapAppend(head, rest, IdOf);
      IncreasingAppend(Map(head, IdOf), Map(rest, IdOf));
    }
  }

  /** A member appears in a bucket's rows at most as often as in the
      clustered bucket, and not at all unless its cluster is visited. */
  lemma {:induction false} ClusterBlocksCount(v: Key, ids: seq<int>, clustered: seq<Member>, models: Models, m: Member)
    requires Increasing(ids)
    ensures multiset(Members(LabelledRows(ClusterBlocks(v, ids, clustered, models))))[m]
      <= if m.cluster in ids then multiset(clustered)[m] else 0
    decreases |ids|
  {
    if |ids| > 0 {
      var head := FirstBlock(v, ids, clustered, models);
      var rest := ClusterBlocks(v, ids[1..], clustered, models);
      ClusterBlocksCount(v, ids[1..], clustered, models, m);
      LabelledRowsAppend(head, rest);
      MapAppend(LabelledRows(head), LabelledRows(rest), MemberOf);
      assert ids[0] !in ids[1..];
      if |head| > 0 {
        ClusterBlockSpec(v, ids[0], clustered, models, head[0]);
        assert LabelledRows(head) == head[0].rows;
        FilterCount(clustered, InCluster(ids[0]), m);
      } else {
        assert Members(LabelledRows(head)) == [];
      }
    }
  }

  /** A bucket below five reviews, counted before noise is dropped, yields
      nothing. */
  lemma SmallBucketSkipped(v: Key, entries: seq<Entry>, models: Models)
    requires |Bucket(entries, v)| < MinBucket
    ensures BucketBlocks(v, entries, models) == Success([])
  {
  }

  /** A bucket HDBSCAN labels as noise throughout yields nothing. */
  lemma AllNoiseSkipped(v: Key, entries: seq<Entry>, models: Models)
    requires |models.cluster(Map(Bucket(entries, v), EntryText))| == |Bucket(entries, v)|
    requires forall i :: 0 <= i < |Bucket(entries, v)| ==> models.cluster(Map(Bucket(entries, v), EntryText))[i] == Noise
    ensures BucketBlocks(v, entries, models) == Success([])
  {
    var bucket := Bucket(entries, v);
    var ms := Assign(bucket, models.cluster(Map(bucket, EntryText)));
    forall m | m in ms ensures !NotNoise(m) {
      var i :| 0 <= i < |ms| && ms[i] == m;
    }
    FilterNone(ms, NotNoise);
  }

  /** A recorded cluster: its version's bucket reached five reviews,
      HDBSCAN labelled all of them, and the block is what an accepted
      cluster other than noise among them records. */
  ghost predicate Recorded(b: Block, entries: seq<Entry>, models: Models) {
    var bucket := Bucket(entries, b.summary.version);
    var ids := models.cluster(Map(bucket, EntryText));
    && |bucket| >= MinBucket
    && |ids| == |bucket|
    && b.summary.clusterId != Noise
    && BlockOf(b, b.summary.version, b.summary.clusterId, Filter(Assign(bucket, ids), NotNoise), models)
  }

  /** A bucket yields exactly the recorded clusters of its version. */
  lemma BucketBlocksRecorded(v: Key, entries: seq<Entry>, models: Models)
    requires BucketBlocks(v, entries, models).Success?
    ensures forall b :: b in BucketBlocks(v, entries, models).value <==>
      b.summary.version == v && Recorded(b, entries, models)
  {
    var bs := BucketBlocks(v, entries, models).value;
    forall b: Block | b in bs ensures b.summary.version == v && Recorded(b, entries, models) {
      BucketBlockRecorded(v, entries, models, b);
    }
    forall b: Block | b.summary.version == v && Recorded(b, entries, models) ensures b in bs {
      BucketBlocksComplete(v, entries, models, b);
    }
  }

  /** Soundness: a block a bucket yields is a recorded cluster. */
  lemma BucketBlockRecorded(v: Key, entries: seq<Entry>, models: Models, b: Block)
    requires BucketBlocks(v, entries, models).Success? && b in BucketBlocks(v, entries, models).value
    ensures b.summary.version == v && Recorded(b, entries, models)
  {
    var bucket := Bucket(entries, v);
    var clustered := Filter(Assign(bucket, models.cluster(Map(bucket, EntryText))), NotNoise);
    var ids := ClusterIds(clustered);
    ClusterBlocksRecorded(v, ids, clustered, models);
    var k :| 0 <= k < |clustered| && Map(clustered, ClusterOf)[k] == b.summary.clusterId;
    assert clustered[k] in clustered;
  }

  /** Completeness: every recorded cluster of a bucket's version appears
      among the bucket's blocks. */
  lemma BucketBlocksComplete(v: Key, entries: seq<Entry>, models: Models, b: Block)
    requires b.summary.version == v && Recorded(b, entries, models)
    ensures BucketBlocks(v, entries, models).Success?
    ensures b in BucketBlocks(v, entries, models).value
  {
    var bucket := Bucket(entries, v);
    var clustered := Filter(Assign(bucket, models.cluster(Map(bucket, EntryText))), NotNoise);
    var id := b.summary.clusterId;
    var subset := Subset(clustered, id);
    assert |Corpus(subset)| <= |Map(subset, MemberText)| == |subset|;
    assert subset[0] in clustered;
    assert Map(clustered, ClusterOf)[IndexOf(clustered, subset[0])] == id;
    ClusterBlocksRecorded(v, ClusterIds(clustered), clustered, models);
  }

  lemma BucketBlocksIncreasing(v: Key, entries: seq<Entry>, models: Models)
    requires BucketBlocks(v, entries, models).Success?
    ensures Increasing(Map(BucketBlocks(v, entries, models).value, IdOf))
  {
    var bs := BucketBlocks(v, entries, models).value;
    if |bs| > 0 {
      var bucket := Bucket(entries, v);
      var clustered := Filter(Assign(bucket, models.cluster(Map(bucket, EntryText))), NotNoise);
      ClusterBlocksIncreasing(v, ClusterIds(clustered), clustered, models);
    }
  }

  /** A bucket's rows hold each clustered member at most as often as the
      clustered bucket does. */
  lemma ClusterBlocksMembers(v: Key, clustered: seq<Member>, models: Models)
    ensures var ids := ClusterIds(clustered);
      multiset(Members(LabelledRows(ClusterBlocks(v, ids, clustered, models)))) <= multiset(clustered)
  {
    var ids := ClusterIds(clustered);
    forall m ensures multiset(Members(LabelledRows(ClusterBlocks(v, ids, clustered, models))))[m] <= multiset(clustered)[m] {
      ClusterBlocksCount(v, ids, clustered, models, m);
    }
  }

  /** Assigning cluster ids keeps the bucket's reviews in place. */
  lemma AssignEntries(bucket: seq<Entry>, ids: seq<int>)
    requires |ids| == |bucket|
    ensures Map(Assign(bucket, ids), EntryOf) == bucket
  {
  }

  /** What a bucket that yields some block was clustered into. */
  lemma BucketBlocksShape(v: Key, entries: seq<Entry>, models: Models)
    requires BucketBlocks(v, entries, models).Success? && |BucketBlocks(v, entries, models).value| > 0
    ensures var bucket := Bucket(entries, v);
      var ids := models.cluster(Map(bucket, EntryText));
      && |ids| == |bucket|
      && var clustered := Filter(Assign(bucket, ids), NotNoise);
         BucketBlocks(v, entries, models).value == ClusterBlocks(v, ClusterIds(clustered), clustered, models)
  {
  }

  /** A bucket's rows hold each review at most as often as the bucket. */
  lemma BucketBlocksCount(v: Key, entries: seq<Entry>, models: Models)
    requires BucketBlocks(v, entries, models).Success?
    ensures multiset(RowEntries(LabelledRows(BucketBlocks(v, entries, models).value))) <= multiset(Bucket(entries, v))
  {
    var bs := BucketBlocks(v, entries, models).value;
    var bucket := Bucket(entries, v);
    if |bs| > 0 {
      BucketBlocksShape(v, entries, models);
      var ids := models.cluster(Map(bucket, EntryText));
      var ms := Assign(bucket, ids);
      ClusterBlocksMembers(v, Filter(ms, NotNoise), models);
      MapMultisetMono(Members(LabelledRows(bs)), ms, EntryOf);
      AssignEntries(bucket, ids);
    } else {
      assert RowEntries(LabelledRows(bs)) == [];
    }
  }

  // ---------------------------------------------------------------------
  // The whole run.
  // ---------------------------------------------------------------------

  /** Blocks come in the order of the version list, then of cluster id. */
  ghost predicate InOrder(vs: seq<Key>, bs: seq<Block>) {
    && (forall b :: b in bs ==> b.summary.version in vs)
    && forall i, j :: 0 <= i < j < |bs| ==>
         IndexOf(vs, bs[i].summary.version) < IndexOf(vs, bs[j].summary.version)
         || (bs[i].summary.version == bs[j].summary.version && bs[i].summary.clusterId < bs[j].summary.clusterId)
  }

  lemma IndexOfTail(vs: seq<Key>, k: Key)
    requires |vs| > 0 && k in vs[1..] && k != vs[0]
    ensures IndexOf(vs, k) == 1 + IndexOf(vs[1..], k)
  {
  }

  lemma NoDupTail<T>(vs: seq<T>)
    requires |vs| > 0 && NoDup(vs)
    ensures NoDup(vs[1..]) && vs[0] !in vs[1..]
  {
    forall i, j | 0 <= i < j < |vs[1..]| ensures vs[1..][i] != vs[1..][j] {
      assert vs[1..][i] == vs[i + 1] && vs[1..][j] == vs[j + 1];
    }
  }

  /** The blocks of the first version, followed by the others. */
  function FirstVersion(vs: seq<Key>, entries: seq<Entry>, models: Models): (r: seq<Block>)
    requires |vs| > 0 && VersionBlocks(vs, entries, models).Success?
    ensures VersionBlocks(vs[1..], entries, models).Success?
    ensures VersionBlocks(vs, entries, models).value == r + VersionBlocks(vs[1..], entries, models).value
    ensures BucketBlocks(vs[0], entries, models) == Success(r)
  {
    BucketBlocks(vs[0], entries, models).value
  }

  /** The run's blocks are exactly the recorded clusters of the listed
      versions. */
  lemma {:induction false} VersionBlocksRecorded(vs: seq<Key>, entries: seq<Entry>, models: Models)
    requires VersionBlocks(vs, entries, models).Success?
    ensures forall b :: b in VersionBlocks(vs, entries, models).value <==>
      b.summary.version in vs && Recorded(b, entries, models)
    decreases |vs|
  {
    if |vs| > 0 {
      var head := FirstVersion(vs, entries, models);
      VersionBlocksRecorded(vs[1..], entries, models);
      BucketBlocksRecorded(vs[0], entries, models);
    }
  }

  /** A first version's blocks, in cluster order, put before the blocks of
      the remaining versions keep the run's order. */
  lemma InOrderCons(vs: seq<Key>, head: seq<Block>, rest: seq<Block>)
    requires |vs| > 0 && vs[0] !in vs[1..]
    requires forall b :: b in head ==> b.summary.version == vs[0]
    requires Increasing(Map(head, IdOf))
    requires InOrder(vs[1..], rest)
    ensures InOrder(vs, head + rest)
  {
    var bs := head + rest;
    forall b | b in rest ensures b.summary.version in vs[1..] && IndexOf(vs, b.summary.version) > 0 {
      IndexOfTail(vs, b.summary.version);
    }
    forall i, j | 0 <= i < j < |bs|
      ensures IndexOf(vs, bs[i].summary.version) < IndexOf(vs, bs[j].summary.version)
           || (bs[i].summary.version == bs[j].summary.version && bs[i].summary.clusterId < bs[j].summary.clusterId)
    {
      if j < |head| {
        assert bs[i] == head[i] && bs[j] == head[j];
        assert Map(head, IdOf)[i] < Map(head, IdOf)[j];
        assert head[i] in head && head[j] in head;
      } else if i < |head| {
        assert bs[i] == head[i] && bs[j] == rest[j - |head|];
        assert head[i] in head && rest[j - |head|] in rest;
      } else {
        var i', j' := i - |head|, j - |head|;
        assert bs[i] == rest[i'] && bs[j] == rest[j'];
        assert rest[i'] in rest && rest[j'] in rest;
        IndexOfTail(vs, rest[i'].summary.version);
        IndexOfTail(vs, rest[j'].summary.version);
      }
    }
  }

  lemma {:induction false} VersionBlocksOrder(vs: seq<Key>, entries: seq<Entry>, models: Models)
    requires NoDup(vs) && VersionBlocks(vs, entries, models).Success?
    ensures InOrder(vs, VersionBlocks(vs, entries, models).value)
    decreases |vs|
  {
    if |vs| > 0 {
      var head := FirstVersion(vs, entries, models);
      NoDupTail(vs);
      VersionBlocksOrder(vs[1..], entries, models);
      BucketBlocksRecorded(vs[0], entries, models);
      BucketBlocksIncreasing(vs[0], entries, models);
      InOrderCons(vs, head, VersionBlocks(vs[1..], entries, models).value);
    }
  }

  /** A review appears in the run's rows at most as often as among the
      entries, and only when its key is a listed version. */
  lemma {:induction false} VersionBlocksCount(vs: seq<Key>, entries: seq<Entry>, models: Models, e: Entry)
    requires NoDup(vs) && VersionBlocks(vs, entries, models).Success?
    ensures multiset(RowEntries(LabelledRows(VersionBlocks(vs, entries, models).value)))[e]
      <= if e.key.Some? && e.key.value in vs then multiset(entries)[e] else 0
    decreases |vs|
  {
    if |vs| > 0 {
      var head := FirstVersion(vs, entries, models);
      var rest := VersionBlocks(vs[1..], entries, models).value;
      NoDupTail(vs);
      VersionBlocksCount(vs[1..], entries, models, e);
      BucketBlocksCount(vs[0], entries, models);
      LabelledRowsAppend(head, rest);
      MapAppend(LabelledRows(head), LabelledRows(rest), MemberOf);
      MapAppend(Members(LabelledRows(head)), Members(LabelledRows(rest)), EntryOf);
      FilterCount(entries, HasKey(vs[0]), e);
      assert multiset(RowEntries(LabelledRows(head)))[e] <= multiset(Bucket(entries, vs[0]))[e];
    }
  }

  /** The total of a table's review counts. */
  function TotalReviews(ss: seq<Summary>): nat {
    if |ss| == 0 then 0 else ss[0].numReviews + TotalReviews(ss[1..])
  }

  /** The clustered-reviews table has as many rows as the summaries count. */
  lemma {:induction false} RowCountMatchesSummaries(bs: seq<Block>)
    requires forall b :: b in bs ==> b.summary.numReviews == |b.rows|
    ensures |LabelledRows(bs)| == TotalReviews(Summaries(bs))
    decreases |bs|
  {
    if |bs| > 0 {
      assert Summaries(bs)[1..] == Summaries(bs[1..]);
      RowCountMatchesSummaries(bs[1..]);
    }
  }

  /** The entries a successful run works on. */
  function RunEntries(app: App, reviews: seq<Review>, releases: seq<Release>, models: Models): seq<Entry>
    requires CreateCluster(app, reviews, releases, models).Success?
  {
    KeyReviews(app, Prepare(reviews), releases).value
  }

  /** The summary table lists exactly the accepted clusters of the listed
      versions whose bucket reached five reviews: each with the label
      computed from its texts, one row per member and the members' rating
      total. */
  lemma CreateClusterRecorded(app: App, reviews: seq<Review>, releases: seq<Release>, models: Models)
    requires CreateCluster(app, reviews, releases, models).Success?
    ensures forall b :: b in CreateCluster(app, reviews, releases, models).value <==>
      && b.summary.version in VersionList(app, releases)
      && Recorded(b, RunEntries(app, reviews, releases, models), models)
  {
    if app != Other {
      VersionBlocksRecorded(VersionList(app, releases), RunEntries(app, reviews, releases, models), models);
    }
  }

  /** Blocks come in the order of the version list, then ascending cluster id. */
  lemma CreateClusterOrder(app: App, reviews: seq<Review>, releases: seq<Release>, models: Models)
    requires CreateCluster(app, reviews, releases, models).Success?
    ensures InOrder(VersionList(app, releases), CreateCluster(app, reviews, releases, models).value)
  {
    if app != Other {
      VersionBlocksOrder(VersionList(app, releases), RunEntries(app, reviews, releases, models), models);
    }
  }

  /** No review appears in two rows of the clustered-reviews table. */
  lemma CreateClusterAtMostOnce(app: App, reviews: seq<Review>, releases: seq<Release>, models: Models)
    requires CreateCluster(app, reviews, releases, models).Success?
    ensures var rows := RowEntries(LabelledRows(CreateCluster(app, reviews, releases, models).value));
      && multiset(rows) <= multiset(RunEntries(app, reviews, releases, models))
      && NoDup(rows)
  {
    var ps := Prepare(reviews);
    var entries := RunEntries(app, reviews, releases, models);
    var vs := VersionList(app, releases);
    var bs := CreateCluster(app, reviews, releases, models).value;
    PrepareSpec(reviews);
    KeyReviewsSpec(app, ps, releases);
    NoDupSub(Map(entries, ItemOf), ps);
    EntriesNoDup(entries);
    if app == Other {
      assert RowEntries(LabelledRows(bs)) == [];
    } else {
      forall e ensures multiset(RowEntries(LabelledRows(bs)))[e] <= multiset(entries)[e] {
        VersionBlocksCount(vs, entries, models, e);
      }
    }
    NoDupSub(RowEntries(LabelledRows(bs)), entries);
  }

  /** The clustered-reviews table has exactly the summaries' total of rows. */
  lemma CreateClusterRowCount(app: App, reviews: seq<Review>, releases: seq<Release>, models: Models)
    requires CreateCluster(app, reviews, releases, models).Success?
    ensures var bs := CreateCluster(app, reviews, releases, models).value;
      |LabelledRows(bs)| == TotalReviews(Summaries(bs))
  {
    CreateClusterRecorded(app, reviews, releases, models);
    RowCountMatchesSummaries(CreateCluster(app, reviews, releases, models).value);
  }

  /** Every recorded review had an app version and informative text. */
  lemma RowsAreCleaned(app: App, reviews: seq<Review>, releases: seq<Release>, models: Models, e: Entry)
    requires CreateCluster(app, reviews, releases, models).Success?
    requires e in RowEntries(LabelledRows(CreateCluster(app, reviews, releases, models).value))
    ensures e.item.index < |reviews| && e.item.review == reviews[e.item.index]
    ensures e.item.review.appVersion.Some? && IsInformative(e.item.text)
    ensures e.item.text == CleanText(e.item.review.content)
  {
    var ps := Prepare(reviews);
    var entries := RunEntries(app, reviews, releases, models);
    CreateClusterAtMostOnce(app, reviews, releases, models);
    assert e in multiset(entries);
    KeyReviewsSpec(app, ps, releases);
    var i :| 0 <= i < |entries| && entries[i] == e;
    assert Map(entries, ItemOf)[i] in multiset(ps);
    PrepareSpec(reviews);
  }

  // ---------------------------------------------------------------------
  // Webex keys.
  // ---------------------------------------------------------------------

  lemma {:induction false} EmptyBucketsNothing(vs: seq<Key>, entries: seq<Entry>, models: Models)
    requires forall v :: v in vs ==> Bucket(entries, v) == []
    ensures VersionBlocks(vs, entries, models) == Success([])
    decreases |vs|
  {
    if |vs| > 0 {
      assert vs[0] in vs;
      assert BucketBlocks(vs[0], entries, models) == Success([]);
      assert forall v :: v in vs[1..] ==> v in vs;
      EmptyBucketsNothing(vs[1..], entries, models);
      var none: seq<Block> := [];
      assert none + none == none;
    }
  }

  lemma WebexKeyOf(p: Prepared)
    requires p.review.appVersion == Some("98.0.1")
    ensures VersionKeyOf(Webex, p) == Some(VersionKey("98.0"))
  {
    var t := VersionText(p.review.appVersion);
    PatchVersionKeys(t);
    WebexKeyIs(p, "98.0");
  }

  /** A Webex review's key is the major.minor number of its version text. */
  lemma WebexKeyIs(p: Prepared, m: string)
    requires ExtractMajorMinor(VersionText(p.review.appVersion)) == Some(m)
    ensures VersionKeyOf(Webex, p) == Some(VersionKey(m))
  {
  }

  /** A Webex review of version `98.0.1` is keyed `98.0`. */
  lemma WebexReviewKeys(ps: seq<Prepared>, releases: seq<Release>)
    requires forall p :: p in ps ==> p.review.appVersion == Some("98.0.1")
    ensures forall e :: e in KeyReviews(Webex, ps, releases).value ==> e.key == Some(VersionKey("98.0"))
  {
    var entries := KeyReviews(Webex, ps, releases).value;
    forall e | e in entries ensures e.key == Some(VersionKey("98.0")) {
      var i :| 0 <= i < |entries| && entries[i] == e;
      assert e == Entry(ps[i], VersionKeyOf(Webex, ps[i]));
      assert ps[i] in ps;
      WebexKeyOf(ps[i]);
    }
  }

  /** A Webex release of version `98.0.1` keeps its patch number. */
  lemma WebexReleaseKeys(releases: seq<Release>)
    requires forall r :: r in releases ==> r.version == Some("98.0.1")
    ensures forall v :: v in VersionList(Webex, releases) ==> v == VersionKey("98.0.1")
  {
    forall v | v in VersionList(Webex, releases) ensures v == VersionKey("98.0.1") {
      var i :| 0 <= i < |releases| && ReleaseKeys(Webex, releases)[i] == Some(v);
      assert releases[i] in releases;
      WebexReleaseKeyOf(releases[i]);
    }
  }

  lemma WebexReleaseKeyOf(r: Release)
    requires r.version == Some("98.0.1")
    ensures ReleaseKey(Webex, r) == Some(VersionKey("98.0.1"))
  {
    PatchVersionKeys(VersionText(r.version));
  }

  /** Webex reviews are keyed by `major.minor` while its releases keep the
      patch number, so a review of version `98.0.1` never meets the release
      `98.0.1`: the run records nothing. */
  lemma WebexPatchNeverMatches(reviews: seq<Review>, releases: seq<Release>, models: Models)
    requires forall r :: r in reviews ==> r.appVersion == Some("98.0.1")
    requires forall r :: r in releases ==> r.version == Some("98.0.1")
    ensures CreateCluster(Webex, reviews, releases, models) == Success([])
  {
    var ps := Prepare(reviews);
    PrepareSpec(reviews);
    forall p | p in ps ensures p.review.appVersion == Some("98.0.1") {
      assert reviews[p.index] in reviews;
    }
    var entries := KeyReviews(Webex, ps, releases).value;
    var vs := VersionList(Webex, releases);
    WebexReviewKeys(ps, releases);
    WebexReleaseKeys(releases);
    forall v | v in vs ensures Bucket(entries, v) == [] {
      FilterNone(entries, HasKey(v));
    }
    EmptyBucketsNothing(vs, entries, models);
  }
}
