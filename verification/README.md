# Review clustering, modelled in Dafny

This project models the review-clustering pipeline of `review_clustering.py`:
the text helpers (`clean_version`, `extract_major_minor`, `clean_text`,
`is_informative`, `BORING_REVIEWS`, `is_valid_label`) and the body of
`create_cluster`. That body:

- cleans the reviews and keeps the informative ones;
- keys each review by version (Zoom, Webex) or by release-date bucket (Firefox, through `pd.cut`);
- walks the release versions;
- clusters each bucket of five or more reviews;
- drops noise;
- labels each cluster from its top terms;
- keeps the clusters whose label passes the dictionary check;
- assembles the two output tables.

The copy of `clean_version` in `main.py` is identical and is modelled once.

Modules, one per file:

- `Wrappers`: `Option` and `Result`.
- `Seqs`: generic sequence operations used by the others.
  - Filtering, mapping and subsequences.
  - Duplicate-freedom and multiplicities.
  - `unique()` keeps first-appearance order.
  - `sorted(set(..))` is modelled as `SortedUnique`.
- `Text`: the Python string operations the source relies on.
  - `str.lower`, `str.strip` and `str.split`.
  - `re.findall(r'\w+', ..)` as maximal runs of a character class.
- `Versions`: `clean_version` and `extract_major_minor`.
  - The regular-expression search is written as a leftmost scan over match ends.
  - It is proved to return the leftmost-longest occurrence of a shape defined independently of the scan.
- `Cleaning`: `BORING_REVIEWS`, `is_informative` and `clean_text`.
- `Labels`: the ", " join of the top terms and `is_valid_label`.
- `DateBins`: the Firefox bucketing.
  - The release dates form the bin edges, and `Timestamp.max` closes the last bin.
  - `pd.cut(right=False)` is modelled as a right-side `searchsorted`.
  - It has the two failure checks pandas makes: duplicate edges and a label count that does not match.
- `Pipeline`: `create_cluster` as a pure function.
  - It returns the accepted clusters as `Block`s; each is a summary row plus its labelled review rows.
  - It can instead return the exception that ends the run.
- `PipelineProps`: properties of the whole run.

The sentence-embedding model, HDBSCAN and the TF-IDF extractor are parameters of
the run (`Pipeline.Models`):

- `cluster` maps a bucket's cleaned texts to one cluster id per text. Noise is `-1`.
- `topTerms` maps a cluster's filtered texts to its feature names.
- `english` is the NLTK word list.

## Model

| member | source | states |
|---|---|---|
| Versions.CleanVersionSpec | review_clustering.py:13-22 | `clean_version` returns the leftmost-longest `\d+\.\d+(\.\d+)?` occurrence of the lowered, stripped text, and that text itself when it holds no occurrence |
| Versions.CleanVersion | review_clustering.py:13-22 | `clean_version` (and its copy at main.py:12-21): the result carries no outer whitespace, since the text is stripped before the search |
| Versions.SpanIsLeftmostLongest | review_clustering.py:19 | the span the search reports is the leftmost-longest occurrence, and there is no span exactly when no occurrence exists |
| Versions.SpanCharacterised | review_clustering.py:19 | the search reports span (i, j) if and only if (i, j) is the leftmost-longest occurrence |
| Versions.CleanVersionShape | review_clustering.py:18-22 | the result is either a whole version number or the normalised input holding none |
| Versions.CleanVersionIdempotent | review_clustering.py:13-22 | cleaning a cleaned version changes nothing |
| Versions.NormalizeIdempotent | review_clustering.py:18 | lowering and stripping twice is lowering and stripping once |
| Versions.CleanVersionDocExample | main.py:12-21 | "version 51.01 (4306)" and the dashboard's "verrsion 51.01 (4306)" both clean to "51.01" |
| Versions.FourPartVersionExample | main.py:18-20 | "1.2.3.4" cleans to "1.2.3": at most three parts are kept |
| Versions.NoVersionExample | review_clustering.py:18-22 | " Beta " cleans to "beta"; `extract_major_minor` gives None |
| Versions.NoDigitsExample | review_clustering.py:18-32 | "no version" is returned unchanged by `clean_version` and gives None from `extract_major_minor` |
| Versions.NoDigitNoVersion | review_clustering.py:19-32 | text without a digit comes back from the version search unchanged and has no major.minor number |
| Versions.ExtractMajorMinorSpec | review_clustering.py:24-32 | `extract_major_minor` returns the leftmost-longest `\d+\.\d+` occurrence, and None exactly when there is none; the joined groups are the matched text |
| Versions.MajorMinorPrefixOfVersion | review_clustering.py:13-32 | on the same normalised text the major.minor number is a prefix of the full version number |
| Versions.PatchVersionKeys | review_clustering.py:116-118 | "98.0.1" cleans to "98.0.1" but extracts to "98.0" |
| Cleaning.BoringNotInformative | review_clustering.py:36-49 | no phrase of `BORING_REVIEWS` is informative |
| Cleaning.InformativeIgnoresCaseAndOuterSpace | review_clustering.py:46-49 | the verdict does not change when the text is lowered or stripped first |
| Cleaning.TokenCountBound | review_clustering.py:47 | a text has at most one more token than whitespace characters, and twice its tokens are at most its length plus one |
| Cleaning.ShortTextNotInformative | review_clustering.py:49 | a text of fewer than nine characters is never informative |
| Cleaning.OneWordNotInformative | review_clustering.py:47-49 | a text without whitespace is never informative |
| Cleaning.JoinedWordsInformative | review_clustering.py:47-49 | five or more lower-case words, the first three distinct, joined by single spaces, are informative |
| Cleaning.RepeatedWordNotInformative | review_clustering.py:48-49 | five repetitions of one word fail the distinct-word test |
| Cleaning.DetailedTextInformative | review_clustering.py:49 | "app freezes on every call" is informative |
| Cleaning.CleanText | review_clustering.py:65-85 | a missing value cleans to "", and no character of the listed emoji ranges survives |
| Cleaning.RemoveRanges | review_clustering.py:71-83 | exactly the characters outside the emoji ranges are kept |
| Cleaning.RemoveMojibake | review_clustering.py:70 | `re.sub` with an empty replacement never lengthens the text |
| Cleaning.CleanTextDeletesOnly | review_clustering.py:69-84 | cleaning only deletes characters of the lowered input |
| Cleaning.CleanTextIsLower | review_clustering.py:81-84 | the cleaned text is already lower case |
| Cleaning.CleanTextFixedPoint | review_clustering.py:69-84 | already clean text comes back unchanged |
| Cleaning.TrailingRemovedChar | review_clustering.py:81-83 | stripping comes before emoji deletion, so whitespace before a trailing emoji stays |
| Cleaning.TrailingEmojiLeavesSpace | review_clustering.py:81-83 | "great " plus a grinning face cleans to "great " |
| Cleaning.RemoveMojibakeIsSubseq | review_clustering.py:70 | the mojibake deletion only deletes characters |
| Cleaning.RemoveMojibakeNoop | review_clustering.py:70 | text in which the two-character mojibake pair never occurs passes unchanged, even if it holds one of the two characters |
| Cleaning.RemoveMojibakeDeletesPair | review_clustering.py:70 | an occurrence of the pair is deleted: the text before it is kept and the scan goes on after it |
| Cleaning.MojibakeSinglePass | review_clustering.py:70 | the deletion is one non-overlapping pass: an occurrence formed by a deletion stays |
| Labels.ValidLabelCounts | review_clustering.py:95-100 | a label passes exactly when it has a token and valid tokens reach the threshold times all tokens |
| Labels.DefaultThresholdTenths | review_clustering.py:88-100 | with the default 0.3 the test is ten times the valid count at least three times the token count |
| Labels.ExactShareAccepted | review_clustering.py:100 | a share of exactly three in ten passes: the comparison is "at least" |
| Labels.NoWordCharRejected | review_clustering.py:95-97 | a label without a word character is rejected at every threshold |
| Labels.ThresholdMonotone | review_clustering.py:100 | lowering the threshold keeps an accepted label accepted |
| Labels.DictionaryMonotone | review_clustering.py:98 | a larger dictionary keeps an accepted label accepted |
| Labels.ThresholdExtremes | review_clustering.py:96-100 | above one nothing passes; at or below zero exactly the labels with a token pass |
| Labels.JoinTermsTokens | review_clustering.py:197 | the ", " separator adds no token: the label's tokens are the terms' tokens in order |
| Labels.NoTermsRejected | review_clustering.py:96-97 | no top terms give the empty label, which is rejected |
| Labels.LetterFreeTokensDilute | review_clustering.py:98-100 | numeric tokens count in the denominator and never as valid |
| Labels.NumericTokensDilute | review_clustering.py:98-100 | one dictionary word passes alone and fails once three numeric tokens follow it |
| DateBins.ReleaseDates | review_clustering.py:127 | the parsed release dates, distinct and ascending, and nothing else |
| DateBins.SearchRight | review_clustering.py:130-135 | the number of leading edges at or before the value, the next edge being later |
| DateBins.SearchRightIncreasing | review_clustering.py:134 | on increasing edges, an edge is at or before the value exactly when it is among the counted ones |
| DateBins.CheckCut | review_clustering.py:130-135 | `pd.cut` accepts the bins exactly when the edges are distinct (or just two) and there is one label per interval |
| DateBins.CutAsWritten | review_clustering.py:130-135 | the binning as written: one bucket per review when it succeeds, and failure whenever some release date did not parse |
| DateBins.Cut | review_clustering.py:130-135 | the intended binning: one bucket per review when it succeeds, and every bucket is a parsed release date |
| DateBins.CutFails | review_clustering.py:127-135 | the intended binning fails exactly when a release is dated `Timestamp.max` and another release date exists |
| DateBins.CutAsWrittenAgrees | review_clustering.py:130-135 | with every release date parsed, the source's binning equals the intended one |
| DateBins.NaTLabelBreaksCut | review_clustering.py:133 | an unparsable release date makes the source's binning fail |
| DateBins.NaTReleaseExample | review_clustering.py:123-135 | releases on 2021-01-01 plus an unparsable one, review on 2021-02-01: the source fails, the intended binning gives 2021-01-01 |
| DateBins.BinOfIncreasing | review_clustering.py:130-135 | on increasing edges, a value lands in the bin of the latest edge at or before it, if it lies before the last edge |
| DateBins.BinSpec | review_clustering.py:119-135 | a review lands in bucket d exactly when it has a date before `Timestamp.max` and d is the latest release date at or before it |
| DateBins.BoundaryGoesToLaterRelease | review_clustering.py:134 | a review dated exactly on a release day goes to that release |
| DateBins.Unbinned | review_clustering.py:124-135 | reviews without a date, before the first release or at `Timestamp.max` get no bucket |
| DateBins.BinIsRelease | review_clustering.py:133 | every bucket is a parsed release date |
| Pipeline.Prepare | review_clustering.py:62-107 | every kept review has an app version and informative cleaned text |
| Pipeline.SortByDate | review_clustering.py:125 | the sorted reviews are a permutation of the input |
| Pipeline.SortByDateSorted | review_clustering.py:125 | the sorted reviews are in date order, undated reviews last |
| Pipeline.KeyReviews | review_clustering.py:115-138 | only the Firefox date binning can fail |
| Pipeline.VersionList | review_clustering.py:141-143 | the versions are duplicate-free, are exactly the present release keys, and come in the order in which the release table first carries each |
| Pipeline.SomesOrder | review_clustering.py:143 | `dropna()` keeps the values present in their order: a value listed before another first appears before it |
| Seqs.Unique | review_clustering.py:143 | `unique()` lists every value exactly once, and in order of first appearance |
| Pipeline.Bucket | review_clustering.py:151 | a bucket holds exactly the entries keyed by its version |
| Pipeline.Subset | review_clustering.py:181 | a cluster's subset holds exactly the clustered members with its id |
| Pipeline.ClusterIds | review_clustering.py:179 | the cluster ids are ascending and are exactly the ids present |
| Pipeline.Corpus | review_clustering.py:186 | every text handed to the phrase extraction is informative and not a boring phrase |
| Pipeline.ClusterBlock | review_clustering.py:181-222 | an accepted cluster has a label that passes the check, as many rows as its summary counts (at least one), and rows that are members of that cluster carrying the summary's label |
| Pipeline.BucketBlocks | review_clustering.py:150-174 | a bucket below five reviews yields nothing, and the only exception is an HDBSCAN label list of the wrong length for that version |
| Pipeline.VersionBlocks | review_clustering.py:150-222 | the walk over the versions fails only with a cluster-count mismatch of a listed version |
| Pipeline.CreateCluster | review_clustering.py:103-222 | the run fails only by a Firefox binning error, by an unknown app with versions, or by a cluster-count mismatch of a listed version |
| PipelineProps.PrepareSpec | review_clustering.py:62-107 | the cleaning step keeps exactly the reviews with a version and informative cleaned text, each once, with its row and cleaned text |
| PipelineProps.KeyReviewsSpec | review_clustering.py:115-135 | keying keeps the prepared reviews as a permutation, in date order for Firefox and in place otherwise |
| PipelineProps.FirefoxKeys | review_clustering.py:119-137 | a Firefox review is keyed by release d exactly when d is the latest release at or before its date |
| PipelineProps.ClusterBlockSpec | review_clustering.py:181-222 | a cluster yields block b exactly when some of its texts are left for the phrase extraction, b's label is the ", "-joined top terms of those texts and passes the check, b has one row per member of the cluster in order, each carrying that label, and b counts the members and totals their ratings |
| PipelineProps.InvalidLabelSkipped | review_clustering.py:202-204 | a cluster whose label fails the check leaves no trace |
| PipelineProps.CorpusKeepsEverything | review_clustering.py:186 | on cleaned reviews the boring-phrase filter keeps every text |
| PipelineProps.ClusterAcceptedIff | review_clustering.py:186-204 | a cluster of cleaned reviews is recorded exactly when the label built from all its texts passes |
| PipelineProps.SmallBucketSkipped | review_clustering.py:154-156 | a bucket of fewer than five reviews yields nothing |
| PipelineProps.AllNoiseSkipped | review_clustering.py:170-174 | a bucket labelled all noise yields nothing |
| PipelineProps.ClusterBlocksRecorded | review_clustering.py:179-222 | the blocks of a list of cluster ids are exactly the accepted clusters among those ids |
| PipelineProps.BucketBlocksRecorded | review_clustering.py:150-222 | a bucket yields exactly the accepted non-noise clusters of its version, provided the bucket reached five reviews: none is dropped and none is invented |
| PipelineProps.BucketBlocksComplete | review_clustering.py:150-222 | every accepted cluster of a bucket of five or more reviews appears among that bucket's blocks |
| PipelineProps.VersionBlocksRecorded | review_clustering.py:150-222 | the walk over the versions yields exactly the accepted clusters of the listed versions |
| PipelineProps.BucketBlocksIncreasing | review_clustering.py:179 | a bucket's clusters come out in ascending id order |
| PipelineProps.BucketBlocksCount | review_clustering.py:163-222 | a bucket's rows hold each review at most as often as the bucket does |
| PipelineProps.ClusterBlocksCount | review_clustering.py:179-222 | a member appears in the rows at most as often as among the clustered reviews, and not at all unless its cluster id is visited |
| PipelineProps.VersionBlocksCount | review_clustering.py:150-222 | a review appears in the run's rows at most as often as among the entries, and only when its key is a listed version |
| PipelineProps.CreateClusterRecorded | review_clustering.py:103-222 | the summary table lists exactly the accepted clusters of the listed versions whose bucket reached five reviews, each with its computed label, rows and rating total |
| PipelineProps.CreateClusterOrder | review_clustering.py:150-179 | summary rows follow the version list, that is the order in which the release table first carries each version, then ascending cluster id |
| PipelineProps.CreateClusterAtMostOnce | review_clustering.py:103-222 | every row of the clustered-reviews table is one of the run's keyed reviews, and none appears twice |
| PipelineProps.CreateClusterRowCount | review_clustering.py:209-226 | the clustered-reviews table has exactly as many rows as the summaries' review counts add up to |
| PipelineProps.RowCountMatchesSummaries | review_clustering.py:209-226 | for blocks whose count is their row count, the concatenated rows number the counts' total |
| PipelineProps.RowsAreCleaned | review_clustering.py:105-107 | every recorded row is an input review with an app version and informative cleaned text |
| PipelineProps.WebexPatchNeverMatches | review_clustering.py:117-143 | Webex reviews of version 98.0.1 and releases of version 98.0.1 never meet: the run records nothing |

## Left out

- Reading and writing the CSV files, the encodings tried and the log messages. The run returns the two tables as values.
- The sentence-embedding model, HDBSCAN and the TF-IDF extractor. They are parameters of the run.
  - The TF-IDF extractor is total. With `ngram_range=(3,4)` and English stop words, scikit-learn raises an empty-vocabulary error when no filtered text keeps three tokens of two or more characters once stop words are dropped. For example, "app is not good at all" keeps only "app good". The run stops there. In the model, an extractor that finds no terms yields the empty label, which fails the label check, so the cluster is skipped.
  - An HDBSCAN result of the wrong length is the error `ClusterCountMismatch`.
- `pd.to_datetime(errors='coerce')`. Dates arrive already parsed, as nanosecond instants within `Timestamp.min`..`Timestamp.max`, or as `None` when unparsable.
- The NLTK download. The dictionary is a parameter set.
- `argparse`, `config.py` and the dashboard of `main.py` apart from its `clean_version`.
- The source reads the module-level `reviews` inside `create_cluster` and assigns it there, which makes it a local. The script also reads its files from the undefined `release_file_path` (review_clustering.py:52-55) and `review_file_path` (review_clustering.py:57-60), and uses the undefined `english_words` (review_clustering.py:98). The model treats the reviews, releases and dictionary as inputs of the run.
- Pipeline.ClusterBlock: `avg_score` is kept as the rating total `scoreSum` and the member count `numReviews`. Their quotient is the float mean; floating-point division is not modelled, and neither are NaN ratings.
- Pipeline.SortByDate: the order of equal dates is not stated. `sort_values` uses an unstable quicksort, and the model uses a stable insertion sort. The contracts state only the permutation and the date order.
- Pipeline.KeyReviews: the run bins Firefox reviews with the corrected `DateBins.Cut`, so it does not fail on an unparsable release date where the source raises (see the finding below; `DateBins.CutAsWritten` models the failing binning).
- Pipeline.KeyReviews: a Webex version that `extract_major_minor` cannot read gets no key. Its NaN never equals a version.
- Pipeline.VersionText: the model takes the version column as text. A version the CSV reader parsed as a float is not modelled.
- Text.LowerChar: `str.lower` is modelled on ASCII and Latin-1 letters only. Other scripts are left unchanged. `\w` and `\d` are modelled on ASCII.
- Cleaning.CleanText: the emoji ranges are deleted as code points. Strings are `seq<char>`, so characters outside the Basic Multilingual Plane are single code points here.
- An app other than Zoom, Webex or Firefox gives its reviews no `clean_version` column. The first version looked up raises a key error. The model returns `MissingVersionColumn` when there is a version, and an empty run otherwise.

## Findings

| source | as written | input that shows it | evidently intended | confidence | as-written member | corrected member |
|---|---|---|---|---|---|---|
| review_clustering.py:133 | the labels of `pd.cut` are the release-date column sorted and de-duplicated, which keeps `NaT` for an unparsable release date. That makes one label more than there are bins, and pandas raises "Bin labels must be one fewer than the number of bin edges" | releases dated 2021-01-01 and one unparsable date; a review dated 2021-02-01 | label the bins with the parsed release dates only, so that unparsable release dates are left out of the binning and the review lands in the 2021-01-01 bucket | not executed | DateBins.CutAsWritten | DateBins.Cut |

`DateBins.NaTReleaseExample` and `DateBins.NaTLabelBreaksCut` show the failure of
`DateBins.CutAsWritten`. `DateBins.BinSpec` proves the intended property of
`DateBins.Cut`, which the rest of the model uses. `DateBins.CutAsWrittenAgrees`
proves that the two agree whenever every release date parses.

The docstring of `is_valid_label` says the share must exceed the threshold,
while the code compares with "at least"; the model follows the code
(`Labels.ExactShareAccepted`). When no cluster is accepted, the code writes
no output file (review_clustering.py:225-239); the model returns an empty
list of blocks.
