# Physio summary reconciliation, modelled in Dafny

This project models the reconciliation core of the rest-pipeline's physio summary. The
script walks the subjects of an imaging project. It maps each raw subject code to a canonical
id through a static alias table, and skips subjects whose canonical id is not in the valid
set. For every session of the remaining subjects it decides whether some analysis produced a
physio trace (a `.csv` whose name contains `FitData` or `FitTrig`). It pools the sessions
under the canonical id. Then, subject by subject in ascending id order, it sorts the sessions
by (timestamp, original label), with a missing timestamp last, and relabels them `ses-01`,
`ses-02`, and so on.

The archive client is replaced by plain input values (`Archive.Subject`, `Archive.Session`,
`Archive.Analysis`), and the valid-subject set is a parameter. The model ends at the ordered
sequence of output rows (`PhysioSummary.SummaryRow`).

Files, one module each:

- `strings.dfy`: Python's string comparison, `lower`, `endswith`, `startswith` and `in`.
- `archive.dfy`: the input records.
- `config.dfy`: the alias table and the physio file names.
- `subject_utils.dfy`: `normalize_subject_id`.
- `flywheel_utils.dfy`: `find_physio_files`.
- `physio_inline.dfy`: the physio check the summary actually runs.
- `session_grouping.dfy`: the collection and pooling loop.
- `session_order.dfy`: the sort key and the stable sort.
- `session_labels.dfy`: the `ses-{idx:02d}` labels.
- `physio_summary.dfy`: the relabelling loop and the whole pipeline.

Behaviour of the code worth knowing, which the model reproduces:

- `find_physio_files` (`utils/flywheel_utils.py:30-47`) matches a configured name exactly,
  ignoring letter case. The summary script imports it but never calls it. Instead it runs its
  own case-sensitive substring check (`process_physio.py:83-88`). Both checks are modelled,
  and the pipeline uses the inline one. `PhysioInline.ConfiguredNamesFound` and
  `PhysioInline.ConfiguredNamesFailInlineCheck` show that the two disagree: the configured
  names spell `FIt` with a capital I, so a file carrying exactly a configured name fails the
  inline check.
- `{idx:02d}` sets only a minimum width, so ranks widen past 99: `ses-100` follows `ses-99`.
- A valid subject with no sessions never gets a key in the `defaultdict`, so it is left out
  of the output. It does not appear with zero rows.
- Subjects are emitted in ascending id order (`sorted(keys)`), and rows within a subject in
  rank order.

## Model

| member | source | states |
|---|---|---|
| `Config.NoAliasChains` | src/network-rest-pipeline/config.py:8-12 | no canonical value of the alias table is itself an alias |
| `Config.AliasIsCanonicalWithSuffix` | src/network-rest-pipeline/config.py:7-11 | every alias is its canonical id followed by "-2" |
| `Config.AliasValuesDistinct` | src/network-rest-pipeline/config.py:9-11 | no two aliases share a canonical id |
| `Config.PatternsAreCsv` | src/network-rest-pipeline/config.py:15-20 | every physio file name ends in ".csv" |
| `Config.PatternsArePpgOrResp` | src/network-rest-pipeline/config.py:16-19 | every physio file name starts with "PPG_" or "RESP_" |
| `Config.PatternsDistinctIgnoringCase` | src/network-rest-pipeline/config.py:15-20 | the four names stay pairwise distinct after lowercasing |
| `Strings.LexLe` | src/network-rest-pipeline/process_physio.py:104-114 | Python's `str` order as used by both `sorted` calls: a prefix comes first, and a proper extension comes after the string it extends |
| `Strings.LexLeFirstDifference` | src/network-rest-pipeline/process_physio.py:104-114 | past a common prefix, the first differing character decides, by code point |
| `Strings.Lower` | src/network-rest-pipeline/utils/flywheel_utils.py:42-45 | `str.lower` on ASCII: same length, each capital becomes its own lower-case letter (code point plus 32), every other character kept, no capital left |
| `Strings.EndsWithAppend` | src/network-rest-pipeline/process_physio.py:83 | `str.endswith`: true exactly when the string is some string followed by the suffix |
| `Strings.ContainsAt` | src/network-rest-pipeline/process_physio.py:88 | the `in` substring test (`Strings.Contains`): true exactly when the needle occurs at some offset |
| `Strings.LowerIgnoresCase` | src/network-rest-pipeline/utils/flywheel_utils.py:42-45 | two strings that differ only in the case of some ASCII letters lowercase to the same string |
| `SubjectUtils.NormalizeSubjectId` | src/network-rest-pipeline/utils/subject_utils.py:6-18 | total; the result is the input or one of the table's canonical values, and never an alias |
| `SubjectUtils.NormalizeAlias` | src/network-rest-pipeline/utils/subject_utils.py:9-18 | an alias maps to its configured canonical id |
| `SubjectUtils.NormalizeExample` | src/network-rest-pipeline/utils/subject_utils.py:9-10 | s29-2 maps to s29; s29 and an id outside the table map to themselves |
| `SubjectUtils.NormalizeUnaliased` | src/network-rest-pipeline/utils/subject_utils.py:16-18 | an id that is not an alias is returned unchanged |
| `SubjectUtils.NormalizeCanonical` | src/network-rest-pipeline/utils/subject_utils.py:18 | canonical ids are fixed points |
| `SubjectUtils.NormalizeIdempotent` | src/network-rest-pipeline/utils/subject_utils.py:18 | normalising twice equals normalising once |
| `FlywheelUtils.AnyPatternIn` | src/network-rest-pipeline/utils/flywheel_utils.py:44-47 | the pattern loop answers true iff some pattern, lowercased, is among the lowercased names |
| `FlywheelUtils.FindPhysioFiles` | src/network-rest-pipeline/utils/flywheel_utils.py:30-47 | true iff the listing exists and some configured name equals some file name up to letter case; false for a missing or empty listing |
| `FlywheelUtils.FindPhysioFilesIgnoresCase` | src/network-rest-pipeline/utils/flywheel_utils.py:42-45 | switching the letter case of any letters in any file names never changes the answer |
| `FlywheelUtils.FindPhysioFilesDependsOnLoweredNames` | src/network-rest-pipeline/utils/flywheel_utils.py:42-43 | two listings with the same set of lowercased names give the same answer: case, order and repetition do not matter |
| `FlywheelUtils.FindPhysioFilesMonotone` | src/network-rest-pipeline/utils/flywheel_utils.py:43-47 | adding file names never turns true into false |
| `FlywheelUtils.FindPhysioFilesIsExact` | src/network-rest-pipeline/utils/flywheel_utils.py:45 | "x_PPG_FItData.csv" does not match (no substring match); "ppg_fitdata.CSV" does (case-insensitive) |
| `PhysioInline.IsPhysioCsv` | src/network-rest-pipeline/process_physio.py:83-88 | the file test: the name ends in ".csv" and "FitData" or "FitTrig" occurs at some offset, letter case significant |
| `PhysioInline.CheckSessionPhysio` | src/network-rest-pipeline/process_physio.py:61-96 | the nested loop with breaks answers true iff some analysis has a file ending in ".csv" that contains "FitData" or "FitTrig"; false without analyses |
| `PhysioInline.NoAnalysesNoPhysio` | src/network-rest-pipeline/process_physio.py:61-66 | a session without analyses has no physio |
| `PhysioInline.ConfiguredNamesFound` | src/network-rest-pipeline/utils/flywheel_utils.py:39-47 | every configured name, as the only file of an analysis, is found by `find_physio_files` |
| `PhysioInline.ConfiguredNamesFailInlineCheck` | src/network-rest-pipeline/process_physio.py:83-88 | every configured name fails the inline check: none contains "FitData" or "FitTrig" |
| `PhysioInline.ConfiguredNameFailsInlineCheck` | src/network-rest-pipeline/process_physio.py:83-88 | a file named exactly "PPG_FItData.csv" passes the configured detector and fails the inline check |
| `PhysioInline.InlineAcceptsUnconfiguredName` | src/network-rest-pipeline/process_physio.py:83-88 | "scan_FitTrig.csv" passes the inline check and fails the configured detector |
| `PhysioInline.InlineIsCaseSensitive` | src/network-rest-pipeline/process_physio.py:88 | "PPG_FitData.csv" is a physio CSV, "ppg_fitdata.csv" is not |
| `SessionGrouping.CollectSessions` | src/network-rest-pipeline/process_physio.py:40-100 | the collection loop builds exactly the pooled map: valid canonical ids with sessions, each mapped to all its subjects' sessions in input order |
| `SessionGrouping.CollectSubjectSessions` | src/network-rest-pipeline/process_physio.py:52-100 | appending one valid subject's sessions, with their physio flags, keeps the map equal to the pooled sessions of the subjects seen so far |
| `SessionGrouping.SessionsOfMembers` | src/network-rest-pipeline/process_physio.py:40-100 | a record is pooled under an id iff it is the record of a session of a subject whose code normalises to that id |
| `SessionGrouping.PooledCharacterization` | src/network-rest-pipeline/process_physio.py:41-100 | an id is a key iff it is valid and has sessions, and its value is all those sessions |
| `SessionGrouping.AliasedSubjectsPooled` | src/network-rest-pipeline/process_physio.py:41-100 | sessions of different raw codes that normalise to one valid id are pooled under that id |
| `SessionGrouping.InvalidSubjectSkipped` | src/network-rest-pipeline/process_physio.py:41-44 | a subject whose canonical id is not valid contributes no key |
| `SessionOrder.TimestampBefore` | src/network-rest-pipeline/process_physio.py:108-112 | the first key component: a real timestamp comes before exactly the later real ones and before a missing one (the `inf` sentinel); it is strict, and a missing timestamp is before nothing |
| `SessionOrder.KeyLeCases` | src/network-rest-pipeline/process_physio.py:108-112 | tuple `<=` on (timestamp, label): a missing timestamp sorts after every real one; different real timestamps decide by value; equal (or both missing) timestamps decide by label |
| `SessionOrder.KeyLeTotal` | src/network-rest-pipeline/process_physio.py:108-112 | any two sessions are comparable under the sort key |
| `SessionOrder.KeyLeTransitive` | src/network-rest-pipeline/process_physio.py:108-112 | the sort key order is transitive |
| `SessionOrder.KeyLeAntisymmetric` | src/network-rest-pipeline/process_physio.py:108-112 | sessions each at most the other share timestamp and label |
| `SessionOrder.Insert` | src/network-rest-pipeline/process_physio.py:114 | inserting adds exactly the one record: the result is a permutation of the list plus the new record |
| `SessionOrder.InsertSorted` | src/network-rest-pipeline/process_physio.py:108-114 | inserting into a list sorted by (timestamp, label) keeps it sorted |
| `SessionOrder.SortSessions` | src/network-rest-pipeline/process_physio.py:114 | the result is a permutation of the input sessions, of the same length |
| `SessionOrder.SortSessionsSorted` | src/network-rest-pipeline/process_physio.py:108-114 | the result is ordered by (timestamp, original label), with missing timestamps last |
| `SessionOrder.SortSessionsStable` | src/network-rest-pipeline/process_physio.py:114 | sessions with equal keys keep their input order, as with Python's stable `sorted` |
| `SessionOrder.StableSortUnique` | src/network-rest-pipeline/process_physio.py:114 | two lists that are sorted by the key, permutations of each other and agree on the order of every equal-key group are equal |
| `SessionOrder.SortSessionsIsTheStableSort` | src/network-rest-pipeline/process_physio.py:114 | every sorted, stable permutation of the sessions equals the model's sort, so it is the list Python's `sorted` returns |
| `SessionOrder.SortSessionsChronological` | src/network-rest-pipeline/process_physio.py:108-114 | timestamped sessions come first in ascending order; untimestamped ones follow; equal timestamps are ordered by label |
| `SessionOrder.SortSessionsExample` | src/network-rest-pipeline/process_physio.py:108-114 | visit_A at T1, visit_B at T2 < T1 and visit_C untimed sort as visit_B, visit_A, visit_C |
| `SessionLabels.Decimal` | src/network-rest-pipeline/process_physio.py:119 | decimal digits without a leading zero (for a positive number), at least one, one exactly below 10, three or more from 100 |
| `SessionLabels.ZeroPad2` | src/network-rest-pipeline/process_physio.py:119 | `{idx:02d}`: all digits, at least two, exactly two iff the rank is at most 99 |
| `SessionLabels.SessionLabel` | src/network-rest-pipeline/process_physio.py:119 | `f'ses-{idx:02d}'`: "ses-" followed by digits that read back as the rank, six characters exactly when the rank is at most 99, and no padding zero from rank 10 on |
| `SessionLabels.ParseDecimalRoundTrip` | src/network-rest-pipeline/process_physio.py:119 | reading the digits back gives the number |
| `SessionLabels.ZeroPad2Properties` | src/network-rest-pipeline/process_physio.py:119 | the padded field is digits that read back as the rank; it is two wide up to 99 and widens, unpadded, from 100 |
| `SessionLabels.SessionLabelInjective` | src/network-rest-pipeline/process_physio.py:116-119 | different ranks never share a label |
| `SessionLabels.SessionLabelExamples` | src/network-rest-pipeline/process_physio.py:119 | ranks 1, 12 and 100 give ses-01, ses-12 and ses-100 |
| `PhysioSummary.SortedIds` | src/network-rest-pipeline/process_physio.py:105 | the subject ids in strictly ascending order, each exactly once |
| `PhysioSummary.AscendingUnique` | src/network-rest-pipeline/process_physio.py:105 | there is only one ascending enumeration of a set of ids |
| `PhysioSummary.SubjectRows` | src/network-rest-pipeline/process_physio.py:116-127 | the `enumerate(start=1)` relabelling of one subject: one row per session, every row under that subject (labels and fields in `SubjectRowsLabels`) |
| `PhysioSummary.AppendSubjectRows` | src/network-rest-pipeline/process_physio.py:116-127 | the relabelling loop appends exactly one subject's rows, the n-th session labelled ses-n |
| `PhysioSummary.BuildSummary` | src/network-rest-pipeline/process_physio.py:104-127 | the output loop emits each subject's relabelled sorted sessions, subjects in ascending id order |
| `PhysioSummary.ProcessPhysioData` | src/network-rest-pipeline/process_physio.py:40-127 | collection followed by output equals the summary of the pooled sessions |
| `PhysioSummary.RowsOfSubject` | src/network-rest-pipeline/process_physio.py:104-127 | the rows of one subject are exactly its sorted, relabelled sessions, and no other subject's rows mix in |
| `PhysioSummary.RowsAscendingBySubject` | src/network-rest-pipeline/process_physio.py:105 | the rows' subject ids never decrease |
| `PhysioSummary.SummaryAscendingBySubject` | src/network-rest-pipeline/process_physio.py:104-105 | in the pipeline's own output, rows never go back to a smaller subject id |
| `PhysioSummary.SubjectRowsLabels` | src/network-rest-pipeline/process_physio.py:116-127 | ranks run 1..N without gaps or repeats, and each row keeps its own session's physio flag and original label |
| `PhysioSummary.SummaryOfSubject` | src/network-rest-pipeline/process_physio.py:40-127 | the output rows of a valid id are all sessions of its raw codes, sorted and relabelled; an id that is not valid has no rows |
| `PhysioSummary.SummaryRowOrigin` | src/network-rest-pipeline/process_physio.py:40-127 | every row comes from a session of a valid subject and carries that session's label and physio flag |
| `PhysioSummary.SummaryCoversSession` | src/network-rest-pipeline/process_physio.py:40-127 | every session of a valid subject appears as a row under its canonical id |
| `PhysioSummary.NoValidSubjectsNoRows` | src/network-rest-pipeline/process_physio.py:40-105 | with an empty valid set there are no rows |

## Left out

- The archive client: `flywheel.Client`, `lookup`, `subjects`, `get`, `get_subject_sessions`, `get_session_analyses` and `get_analysis` are remote I/O. Their results are the input values. The reloads through `fw.get` are not modelled.
- `get_flywheel_client` only reads an environment variable and builds the client.
- `get_valid_subjects` is imported at `process_physio.py:11` and called at `:33`, but `utils/subject_utils.py` does not define it; it is not part of this model. The valid set is therefore a parameter.
- CSV writing (`process_physio.py:129-143`) is file I/O. The model stops at the row sequence. Note that the code writes a header only when there is at least one row, so an empty summary is an empty file. It writes only the subject id, the new label and the physio flag. The original label is kept in each row but not written out.
- The `print` diagnostics, the summary counts and the `ApiException`/`Exception` handlers are logging and error plumbing. The `__main__` block is the entry point.
- The `float('inf')` sentinel is modelled as a missing timestamp that sorts after every real one. In Python, comparing `inf` with a datetime raises `TypeError` when a subject mixes timed and untimed sessions. The model states the evident intent instead.
- Timestamps are abstract integers, not datetimes.
- `str.lower` is modelled on ASCII letters only. Unicode case mapping is not modelled.
- A missing analysis list (`None`) is modelled as the empty sequence. `None` stands for a `files` attribute whose value is `None`; an empty listing is `Some([])`. The inline check tests for the attribute first, while `find_physio_files` reads it directly, so on an analysis with no `files` attribute at all it would raise instead; the model does not represent that case. File types and analysis labels are only printed, so they are not kept.
- Python's `sorted` is Timsort. The model uses a stable insertion sort. `SessionOrder.SortSessionsIsTheStableSort` shows that any sorted, stable permutation equals it, so the two sorts return the same list.
