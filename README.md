# contribution-stats, modelled in Dafny

This project models the Fedora contribution statistics scripts. Two collectors copy
bus messages (package orphanings, adoptions and git commits) into a small SQLite file
of tables keyed by message id. A report script then turns those tables into one CSV
row per month.

- `monthly_query.dfy` (MonthlyQuery) holds the monthly aggregates of the report script
  as functions of the four tables `orphaned`, `adopted`, `commits` and `retired`:
  - row counts and distinct-actor counts;
  - the `retired` join;
  - the adoption mean, kept as an exact sum and count;
  - `_get_months_left`;
  - the two "who left" statistics.

  The loops of `adoption`, `orphaners_gone` and `committers_gone` are methods, each
  proved equal to its specification function.
- `monthly_report.dfy` (MonthlyReport) holds the month iterator `for_each_month` (a
  loop proved against the calendar month range), the `YYYY-MM` label, and the
  eleven-column row that `main` writes for each month.
- `payload.dfy` (Payload) is the decoded bus message, with every looked-up key as an
  optional field. It also holds `is_retirement` and the agent fallback that both
  collectors share.
- `store.dfy` (Store) is the statistics file: a map from table name to rows in
  insertion order, behind the class `StatsDb`.
  - `make_db` is `CREATE TABLE IF NOT EXISTS`.
  - The `INSERT` ignores a repeated primary key and raises on a missing table.
- `ingest.dfy` (Ingest) holds what the collectors share:
  - storing one message;
  - the routing loops of `record_pagure_messages` and `record_commits`, as folds that
    take the row extraction as a parameter;
  - the month step of the collectors' main loops.
- `db_collector.dfy` (DbCollector) is the DataNommer database collector:
  - `get_env` on a host name;
  - the `~/.pgpass` parser, a loop proved against a fold;
  - `message_from_row`;
  - its `insert_message` extraction, with a date fallback and an optional namespace;
  - its `record_*` loops over cursor rows, as methods on a `StatsDb`.
- `datagrepper_collector.dfy` (DatagrepperCollector) is the Datagrepper collector. It
  has a stricter extraction, proved to refuse more and never to disagree, and nested
  loops over result pages.
- `calendar.dfy`, `rows.dfy`, `text.dfy` and `wrappers.dfy` are supporting modules:
  - Python's proleptic Gregorian dates and `timedelta` day steps;
  - the stored row and the SQL filters over tables;
  - `str.strip`, `str.split` and `in` on strings;
  - `Option` and `Result`.

Some representation choices:

- **Timestamps.** A timestamp is a valid date plus microseconds since midnight. The
  SQL comparisons between a stored ISO timestamp and a `"YYYY-MM-DD"` string mean "on
  or after midnight of that day". The stored string always has a time part after the
  date, so both `>` and `>=` reduce to a date comparison.
- **Table order.** Tables are sequences in scan order. Where SQLite leaves the order
  unspecified, the model fixes one. The nearest-preceding orphan row is the first such
  row in table order. `DISTINCT (package, timestamp)` and `DISTINCT(by)` keep each value at its last occurrence.
- **Errors.** The Python scripts let an escaping exception end the loop. The model
  returns the error and keeps what was stored before it.

The model follows the code, including these behaviours a reader might not expect:

- `orphaners_gone` looks for later activity in `commits`, not in `orphaned`.
- `is_retirement` accepts an entry whose additions and deletions are both zero.
- An adoption span can be negative when the orphaning falls later in the same month.
- The months-left guard counts the distinct months of commits from the month's own
  first day on, minus one.

## Model

| member | source | states |
|---|---|---|
| MonthlyReport.MonthRangeShape | query-monthly-data.py:14-20 | every month yielded is a first of month; the first is start's month; each one is the calendar month after the previous; the last is at most today's first of month and the next would pass it; nothing is yielded exactly when start's month is after today's |
| MonthlyReport.ForEachMonth | query-monthly-data.py:14-20 | the 32-days-then-day-1 loop yields exactly the calendar month range from start to today |
| MonthlyReport.ShowMonth | query-monthly-data.py:26 | the `%Y-%m` label is seven characters with a dash at position 4 |
| MonthlyReport.ShowMonthReadsBack | query-monthly-data.py:26 | the label's year and month digits read back as the month's year and month |
| MonthlyReport.ParsePad | query-monthly-data.py:26 | a zero-padded number that fits its width reads back as itself |
| MonthlyReport.ShowDate | query-monthly-data.py:23-26 | no label exactly for no month, otherwise the month's label |
| MonthlyReport.AdoptionCell | query-monthly-data.py:183 | the average field is empty exactly when the mean is absent or zero, otherwise it is the mean |
| MonthlyReport.GoneCell | query-monthly-data.py:186-187 | a survivorship field is empty exactly when the statistic is absent, otherwise it is the count |
| MonthlyReport.StatsOf | query-monthly-data.py:174-188 | the month's ten statistics, each from its query function; a present adoption mean has a positive sample size, and `StatsBounds` states the bounds between them |
| MonthlyReport.FieldsColumns | query-monthly-data.py:156-188 | a row has the header's eleven columns, each position paired with its header name: the label, then each statistic, with the empty-field rules of the average and survivorship columns |
| MonthlyReport.StatsBounds | query-monthly-data.py:174-188 | in every row orphaners ≤ orphaned, retired ≤ orphaned, adopters ≤ adopted; both survivorship values are absent exactly while at most three months of commits lie ahead, and otherwise are bounded by orphaners and committers |
| MonthlyReport.RangeReportable | query-monthly-data.py:171 | every month of the report range is a valid month with a four-digit year |
| MonthlyReport.ReportRow | query-monthly-data.py:174-189 | the loop body writes the row of the month's statistics |
| MonthlyReport.Report | query-monthly-data.py:151-189 | `main` writes the header and then one row per month of the range from 2020-08, in order |
| MonthlyReport.AdoptionFiftyFiveDays | query-monthly-data.py:56-76 | an orphaning on 2024-01-15 adopted on 2024-03-10 gives a March mean of 55 days over one adoption, and the field is written |
| MonthlyReport.AdoptionSpanCanBeNegative | query-monthly-data.py:66-74 | an orphaning later in the same month than the adoption is still matched, giving a span of -15 days |
| MonthlyQuery.Orphaned | query-monthly-data.py:41-43 | `orphaned`: the number of `orphaned` rows in the month's bucket; `CountsBoundDistinctActors` and `RetiredBounds` bound it |
| MonthlyQuery.Orphaners | query-monthly-data.py:46-48 | `orphaners`: the number of distinct actors among those rows; `CountsBoundDistinctActors` states it is at most `Orphaned` |
| MonthlyQuery.Adopted | query-monthly-data.py:51-53 | `adopted`: the number of `adopted` rows in the month's bucket |
| MonthlyQuery.Adopters | query-monthly-data.py:79-81 | `adopters`: the number of distinct actors among those rows; `CountsBoundDistinctActors` states it is at most `Adopted` |
| MonthlyQuery.Committed | query-monthly-data.py:94-96 | `committed`: the number of distinct packages among the month's commit rows, at most their number by `CountsBoundDistinctActors` |
| MonthlyQuery.Committers | query-monthly-data.py:99-101 | `committers`: the number of distinct actors among the month's commit rows, at most their number by `CountsBoundDistinctActors` |
| MonthlyQuery.Retired | query-monthly-data.py:84-91 | `retired`: the number of distinct packages of the join, characterised by `RetiredPackagesJoin` and bounded by `RetiredBounds` |
| MonthlyQuery.CountsBoundDistinctActors | query-monthly-data.py:41-53 | orphaners ≤ orphaned and adopters ≤ adopted; committers and packages with commits never exceed the month's commit rows |
| MonthlyQuery.RetiredBounds | query-monthly-data.py:84-91 | retired ≤ the month's distinct orphaned packages ≤ orphaned |
| MonthlyQuery.RetiredPackagesJoin | query-monthly-data.py:86-88 | a package is counted exactly when it has an orphaned row in the month and some row in `retired` |
| MonthlyQuery.MonthsLeft | query-monthly-data.py:33-38 | `_get_months_left`: the number of buckets of the late commits minus one; `MonthsLeftValue` states its value |
| MonthlyQuery.BucketsMembers | query-monthly-data.py:35 | the distinct `year-month` bucket strings are exactly the (year, month) pairs of the rows |
| MonthlyQuery.MonthsLeftValue | query-monthly-data.py:33-38 | months left is the number of distinct (year, month) pairs among the commits stamped on or after the day, minus one |
| MonthlyQuery.MonthsLeftRange | query-monthly-data.py:33-38 | months left is at least -1, and exactly -1 when no commit is stamped on or after the day |
| MonthlyQuery.PairsOf | query-monthly-data.py:58-60 | `SELECT DISTINCT(package), timestamp`: the rows' pairs, each kept at its last occurrence; `PairsOfMembers` states it |
| MonthlyQuery.PairsOfMembers | query-monthly-data.py:58-60 | the adoption pairs are distinct and are exactly the rows' (package, timestamp) pairs |
| MonthlyQuery.LatestOrphan | query-monthly-data.py:62-71 | the picked orphan row belongs to the table |
| MonthlyQuery.LatestOrphanSpec | query-monthly-data.py:62-73 | there is a pick exactly when some orphan row of the package lies in the month or earlier; the pick qualifies; no qualifying row lies in a later month |
| MonthlyQuery.Sample | query-monthly-data.py:61-75 | `adoption_times` after the loop over the pairs; `SampleLength`, `SampleMultiplicity` and `SampleElements` state its contents |
| MonthlyQuery.SamplePrefixStep | query-monthly-data.py:61-75 | one more pair appends that pair's span when it finds an orphan row, and nothing otherwise |
| MonthlyQuery.SampleEmptyIff | query-monthly-data.py:61-76 | the sample is empty exactly when no pair has a qualifying orphan row |
| MonthlyQuery.SampleElements | query-monthly-data.py:74-75 | every sampled value is the whole-day span from some pair back to the orphan row picked for its package |
| MonthlyQuery.SampleLength | query-monthly-data.py:61-75 | over distinct pairs the sample holds exactly one value per pair that finds an orphan row |
| MonthlyQuery.SampleMultiplicity | query-monthly-data.py:61-75 | over distinct pairs each value occurs in the sample exactly as often as there are pairs with that span |
| MonthlyQuery.SampleMultiset | query-monthly-data.py:61-75 | any listing of the pairs' spans, each pair once, has the same multiset as the sample |
| MonthlyQuery.SumConcat | query-monthly-data.py:76 | the sum of a concatenation is the sum of the sums |
| MonthlyQuery.SumRemove | query-monthly-data.py:76 | taking one term out of a sequence takes it out of the sum |
| MonthlyQuery.SumOfMultiset | query-monthly-data.py:76 | two sequences with the same multiset have the same sum, so the mean does not depend on the order of the pairs |
| MonthlyQuery.AdoptionMean | query-monthly-data.py:76 | a present mean has a positive sample size |
| MonthlyQuery.AdoptionMeanValue | query-monthly-data.py:56-76 | for any listing of the matched pairs' spans, each distinct adoption pair once, the statistic is absent exactly when the listing is empty and is otherwise its sum over its length; the listing has one entry per matched pair |
| MonthlyQuery.AdoptionAbsentIff | query-monthly-data.py:56-76 | the adoption statistic is absent exactly when no adoption of the month has an orphan row for its package in that month or earlier |
| MonthlyQuery.AdoptedPairsValid | query-monthly-data.py:58-60 | every adoption pair carries a valid timestamp |
| MonthlyQuery.Adoption | query-monthly-data.py:56-76 | the loop computes the adoption statistic `AdoptionMean`, whose value `AdoptionMeanValue` states; a present result averages exactly one span per distinct adoption pair that finds an orphan row |
| MonthlyQuery.CommittersInFutureMonths | query-monthly-data.py:104-112 | `_committers_in_future_months`: the given actors with a commit on or after the next month's first; `CommittersInFutureMonthsMembers` states it |
| MonthlyQuery.GoneActors | query-monthly-data.py:118-121 | the month's distinct actors less those active since; `GoneActorsMembers` states it |
| MonthlyQuery.GoneCount | query-monthly-data.py:115-131 | the survivorship statistic, absent while at most three months lie ahead; `GoneCountBounds` states it |
| MonthlyQuery.CommittersInFutureMonthsMembers | query-monthly-data.py:104-112 | the result lists, once each, exactly those of the given actors with a commit on or after the next month's start |
| MonthlyQuery.GoneActorsMembers | query-monthly-data.py:118-121 | an actor is gone exactly when active in the month and without a commit since the next month's start |
| MonthlyQuery.GoneCountBounds | query-monthly-data.py:115-131 | the statistic is absent exactly when months left ≤ 3, and otherwise is at most the month's distinct actors |
| MonthlyQuery.ActorsGoneFrom | query-monthly-data.py:118-122 | the list-building and set difference compute the number of gone actors |
| MonthlyQuery.OrphanersGone | query-monthly-data.py:115-122 | `orphaners_gone` is the survivorship statistic of `orphaned` against `commits` |
| MonthlyQuery.CommittersGone | query-monthly-data.py:125-145 | `committers_gone` is the survivorship statistic of `commits` against itself |
| MonthlyQuery.GoneMeansNoLaterCommit | query-monthly-data.py:104-131 | for a first of month, someone is gone exactly when they have a row in the month and no commit on or after the first of the next month |
| Rows.InMonthMembers | query-monthly-data.py:29-30 | the month filter keeps exactly the rows of the bucket |
| Rows.OnOrAfterMembers | query-monthly-data.py:35-36 | the timestamp filter keeps exactly the rows stamped on or after the day |
| Rows.ByOneOfMembers | query-monthly-data.py:108 | the `by IN (...)` filter keeps exactly the rows of those actors |
| Rows.ActorsMembers | query-monthly-data.py:47 | the distinct actors are exactly those of the rows, and never more than the rows |
| Rows.PackagesMembers | query-monthly-data.py:86 | the distinct packages are exactly those of the rows, and never more than the rows |
| Rows.DistinctActorsMembers | query-monthly-data.py:118-119 | the `SELECT DISTINCT(by)` list holds each actor of the rows exactly once |
| Rows.SubsetCard | query-monthly-data.py:121 | a set difference is never larger than the set it is taken from |
| Calendar.FirstOfMonth | query-monthly-data.py:15-16 | `replace(day=1)` gives day 1 of the same year and month |
| Calendar.NextMonthStart | query-monthly-data.py:19-20 | the first of the following calendar month is a valid first of month one month index later |
| Calendar.NextMonthStartOrdinal | query-monthly-data.py:19-20 | the next month starts as many days after this month's first as this month has |
| Calendar.YearStep | query-monthly-data.py:19 | a year's length in days is the days before December plus 31 |
| Calendar.AddDays | collect-data-from-db.py:64 | adding days keeps a date valid |
| Calendar.AddDaysOrdinal | collect-data-from-db.py:64 | `+ timedelta(days=n)` advances the ordinal by exactly n |
| Calendar.AddDaysAdvances | collect-data-from-db.py:64 | adding days never moves back a month, and adding more than the rest of the month moves forward |
| Calendar.AddDaysIntoNextMonth | collect-data-from-datagrepper.py:63 | a step past the rest of the month, by at most 28 days more, lands in the next month on the day left over |
| Calendar.Add32ThenFirst | query-monthly-data.py:19-20 | from a first of month, 32 days on and back to day 1 is the first of the next month |
| Calendar.Add31ThenFirst | query-monthly-data.py:105-106 | from a first of month, 31 days on and back to day 1 is the first of the next month |
| Calendar.MonthOfIndex | query-monthly-data.py:17-20 | the first of the month with a given index is a valid first of month with that index |
| Calendar.MonthStartByIndex | query-monthly-data.py:17-20 | a first of month is determined by its month index |
| Calendar.MonthStartOrder | query-monthly-data.py:17 | for firsts of month, the date order is the month-index order |
| Calendar.DateLeMonthIndex | collect-data-from-db.py:200 | the date order never puts a later month first |
| Calendar.DaysBetween | query-monthly-data.py:74 | `(a - b).days` is the ordinal difference, one less when a's time of day is earlier than b's |
| Calendar.FloorStep | query-monthly-data.py:74 | flooring whole days plus a sub-day offset by the day length |
| Text.TrimStart | collect-data-from-db.py:40 | dropping leading whitespace leaves a suffix that does not start with whitespace |
| Text.TrimEnd | collect-data-from-db.py:40 | dropping trailing whitespace leaves a prefix that does not end with whitespace |
| Text.TrimStartRemovesSpaces | collect-data-from-db.py:40 | everything dropped at the front is whitespace |
| Text.TrimEndRemovesSpaces | collect-data-from-db.py:40 | everything dropped at the back is whitespace |
| Text.StripShape | collect-data-from-db.py:40 | `strip()` is a slice whose outside is whitespace and whose ends are not |
| Text.StripIdempotent | collect-data-from-db.py:40 | stripping twice is stripping once |
| Text.Split | collect-data-from-db.py:40 | `split` always yields at least one piece |
| Text.SplitPieces | collect-data-from-db.py:40 | `split(":")` yields one more piece than there are colons, and no piece holds one |
| Text.JoinSplit | collect-data-from-db.py:40 | joining the pieces with the separator gives back the line |
| Text.SplitJoin | collect-data-from-db.py:40 | splitting a join of separator-free pieces gives back the pieces |
| Text.SplitFree | collect-data-from-db.py:40 | a string without the separator splits into itself |
| Text.SplitPrefix | collect-data-from-db.py:40 | a separator after a separator-free prefix starts a new piece |
| Text.ContainsIff | collect-data-from-db.py:33 | `pat in s` holds exactly when `pat` occurs at some position of `s` |
| DbCollector.GetEnv | collect-data-from-db.py:32-33 | the environment is `stg` or `prod`, and `stg` exactly when the host name contains `.stg.` |
| DbCollector.GetEnvExamples | collect-data-from-db.py:33 | `db01.stg.iad2.fedoraproject.org` is staging; `proxy01.stg` is production |
| DbCollector.Collect | collect-data-from-db.py:39-41 | the nested credentials mapping of the parsed lines; `CollectFails` and `CollectLookup` state it |
| DbCollector.CollectFails | collect-data-from-db.py:39-40 | parsing succeeds exactly when every line has five fields; a failure names the first bad line and its field count |
| DbCollector.CollectPrefixFails | collect-data-from-db.py:39-40 | once a prefix of the lines fails, the whole file fails the same way |
| DbCollector.CollectLookup | collect-data-from-db.py:39-42 | a database and user have an entry exactly when some line names them, with the password of the last such line |
| DbCollector.ReadPgpass | collect-data-from-db.py:36-42 | the loop filling the nested mapping returns the parse of the lines, or the error of the first bad line |
| DbCollector.MessageFromRow | collect-data-from-db.py:69-76 | `message_from_row`: the id, topic, timestamp and body of the row, with missing headers read as empty; `CursorRowDate` states its date |
| DbCollector.MessageDate | collect-data-from-db.py:109-112 | `sent-at` when present, else the message's timestamp; `CursorRowDate` states it for every cursor-row message |
| DbCollector.PackageName | collect-data-from-db.py:113-122 | `project.fullname`, else the commit's repository, prefixed with its namespace when present; `PackageNameFound` and `PackageNameSplits` state it |
| DbCollector.ExtractRow | collect-data-from-db.py:108-142 | the row `insert_message` builds or the error it raises; `ExtractRowSpec` states it |
| DbCollector.CursorRowDate | collect-data-from-db.py:69-112 | a message made from a cursor row always has a date: `sent-at` when present, else the row's timestamp |
| DbCollector.ExtractRowSpec | collect-data-from-db.py:108-142 | extraction succeeds exactly when a date, a package and an agent are found; the row is keyed by the id, dated by that date, with its year and month, agent and package; a row with a valid timestamp is consistent, its year and month being those of its date |
| DbCollector.ExtractRowKeepsId | collect-data-from-db.py:136 | every extracted row is keyed by its message's id |
| DbCollector.PackageNameFound | collect-data-from-db.py:113-122 | a package is found exactly when there is a `project.fullname` or a commit with a `repo`, and the full name wins when present |
| DbCollector.PackageNameSplits | collect-data-from-db.py:116-119 | a package built from the commit splits at the slash into namespace and repository when there is a namespace, and is the bare repository otherwise |
| DbCollector.InsertMessage | collect-data-from-db.py:108-147 | storing a message changes the database as the shared store step specifies, with the same error |
| DbCollector.RecordPagureMessages | collect-data-from-db.py:92-105 | the loop over cursor rows leaves the database as the `record_pagure_messages` fold specifies |
| DbCollector.RecordAction | collect-data-from-db.py:150-158 | `record_action` stores into the table named after the action plus `ed` |
| DbCollector.RecordCommits | collect-data-from-db.py:161-178 | the loop over cursor rows leaves the database as the `record_commits` fold specifies |
| DatagrepperCollector.MessageDate | collect-data-from-datagrepper.py:93 | `sent-at` only, raising without it; `ExtractRowSpec` states it |
| DatagrepperCollector.PackageName | collect-data-from-datagrepper.py:94-103 | `project.fullname`, else namespace and repository, both required; `PackageNameAgrees` states it |
| DatagrepperCollector.ExtractRow | collect-data-from-datagrepper.py:92-123 | the row this collector's `insert_message` builds or the error it raises; `ExtractRowSpec` and `AgreesWithDbCollector` state it |
| DatagrepperCollector.ExtractRowSpec | collect-data-from-datagrepper.py:92-123 | extraction succeeds exactly when `sent-at`, a package and an agent are present; the row is dated by `sent-at`, with its year and month, agent and package; a row with a valid timestamp is consistent, its year and month being those of its date |
| DatagrepperCollector.ExtractRowKeepsId | collect-data-from-datagrepper.py:117 | every extracted row is keyed by its message's id |
| DatagrepperCollector.PackageNameAgrees | collect-data-from-datagrepper.py:94-103 | a package found here is the database collector's; one is found exactly when the database collector finds one from a full name or from a commit with a namespace |
| DatagrepperCollector.AgreesWithDbCollector | collect-data-from-datagrepper.py:92-123 | whatever this collector extracts, the database collector extracts as the same row |
| DatagrepperCollector.RefusesWhatDbCollectorStores | collect-data-from-datagrepper.py:93-103 | a commit without `sent-at` and namespace is stored by the database collector and refused here |
| DatagrepperCollector.InsertMessage | collect-data-from-datagrepper.py:92-128 | storing a message changes the database as the shared store step specifies, with the same error |
| DatagrepperCollector.RecordPagureMessages | collect-data-from-datagrepper.py:81-89 | the nested loops over pages leave the database as the fold over all pages' messages specifies |
| DatagrepperCollector.RecordCommits | collect-data-from-datagrepper.py:140-151 | the nested loops over pages leave the database as the `record_commits` fold over all pages' messages specifies |
| Payload.IsRetirement | collect-data-from-db.py:79-89 | `is_retirement`, with a raised `KeyError` as an error; `IsRetirementSpec` states it |
| Payload.IsRetirementSpec | collect-data-from-db.py:79-89 | a retirement is exactly an added `dead.package` entry on `main` or `rawhide`; a missing entry is no retirement; the check raises exactly when a key it reads is missing |
| Payload.RetirementWithZeroCounts | collect-data-from-db.py:84-86 | an entry with both counts zero passes the "was it added" test |
| Payload.NotRetirements | collect-data-from-datagrepper.py:68-78 | a deletion on rawhide, an addition on a release branch, and a message without the entry are no retirements |
| Payload.RetirementWithoutBranch | collect-data-from-db.py:87 | an added entry without a `branch` key raises instead of answering |
| Payload.Agent | collect-data-from-db.py:123-130 | the agent is `body.agent`, else `body.commit.agent`; it is found exactly when one of them is present |
| Store.CreateTable | collect-data-from-db.py:45-58 | `CREATE TABLE IF NOT EXISTS` on the map of tables; `CreateTableSpec` states it |
| Store.CreateTableSpec | collect-data-from-datagrepper.py:46-59 | `make_db` adds the table, empty when new, keeps every existing table's rows, is idempotent and keeps primary keys intact |
| Store.Insert | collect-data-from-db.py:131-146 | the `INSERT`, ignoring a repeated msgid; `InsertSpec` and `InsertKeyed` state it |
| Store.InsertSpec | collect-data-from-db.py:131-146 | an insert fails only for a missing table; a repeated msgid changes nothing; a new one appends exactly that row to that table only |
| Store.InsertKeyed | collect-data-from-db.py:131-146 | an insert keeps every table's primary key unique |
| Store.MsgIdsMembers | collect-data-from-db.py:55 | the table's keys are exactly the msgids of its rows |
| Store.ExtendsTransitive | collect-data-from-db.py:103-105 | appending after appending is appending |
| Store.StatsDb.constructor | collect-data-from-db.py:191 | opening the file gives its existing tables |
| Store.StatsDb.MakeDb | collect-data-from-db.py:45-58 | the tables become those after `CREATE TABLE IF NOT EXISTS` |
| Store.StatsDb.InsertRow | collect-data-from-db.py:131-146 | the tables become those after the insert, or stay, with the insert's error |
| Ingest.InsertMessage | collect-data-from-db.py:108-147 | storing one message, given a collector's extraction; `InsertMessageSpec` states it |
| Ingest.InsertMessageSpec | collect-data-from-db.py:108-147 | storing into an existing table fails exactly when extraction fails, with its error; it only appends to that table, keeps keys unique, and a success adds the message's id |
| Ingest.PagureFrom | collect-data-from-db.py:103-105 | the loop of `record_pagure_messages` as a fold; `PagureFromExtends` and `PagureFromOutcome` state it |
| Ingest.PagureFromExtends | collect-data-from-db.py:103-105 | the loop only appends, to its table alone, and keeps primary keys intact |
| Ingest.PagureFromOutcome | collect-data-from-db.py:103-105 | the loop ends without error exactly when every message extracts, and then the table's keys grew by exactly the messages' ids; an error is that of the first message that does not extract |
| Ingest.RecordPagureSpec | collect-data-from-db.py:92-105 | `record_pagure_messages` creates the table, leaves the others alone, keeps earlier rows and keys unique, succeeds exactly when every message extracts, and then holds exactly the old keys plus the messages' ids |
| Ingest.CommitStep | collect-data-from-db.py:174-177 | one routing step of `record_commits`; `CommitStepExtends` and `CommitStepOutcome` state it |
| Ingest.CommitsFrom | collect-data-from-db.py:173-178 | the loop of `record_commits` as a fold; `CommitsFromExtends`, `CommitsFromSucceedsIff` and `CommitsFromIds` state it |
| Ingest.CommitStepExtends | collect-data-from-db.py:174-177 | one routing step only appends, to `commits` and `retired` alone |
| Ingest.CommitStepOutcome | collect-data-from-db.py:174-177 | one routing step succeeds exactly when the message is routable; it adds the id to `commits`, and to `retired` exactly for a retirement; its error is the extraction's or the retirement check's |
| Ingest.CommitsFromExtends | collect-data-from-db.py:173-178 | the loop only appends, to `commits` and `retired` alone, and keeps primary keys intact |
| Ingest.CommitsFromSucceedsIff | collect-data-from-db.py:173-178 | the loop ends without error exactly when every message is routable |
| Ingest.CommitsFromIds | collect-data-from-db.py:173-178 | after a loop without error, every id is in `commits` and exactly the retirements' ids were added to `retired` |
| Ingest.RecordCommitsKeeps | collect-data-from-db.py:161-178 | `record_commits` creates both tables, leaves the others alone, and keeps earlier rows and keys unique |
| Ingest.RecordCommitsSucceedsIff | collect-data-from-db.py:161-178 | `record_commits` ends without error exactly when every message is routable |
| Ingest.RecordCommitsIds | collect-data-from-db.py:161-178 | after `record_commits` without error, `commits` holds the old keys plus every message's id, and `retired` the old keys plus exactly the retirements' ids |
| Ingest.NextMonthAsWritten | collect-data-from-db.py:63-66 | `next_month` as written: the date 32 days later, time of day kept |
| Ingest.NextMonthAsWrittenDrifts | collect-data-from-datagrepper.py:62-65 | from 2023-08-01 the step lands on 2023-09-02, not on a first of month |
| Ingest.NextMonth | collect-data-from-datagrepper.py:62-65 | the corrected step lands on a first of a later month, time of day kept, and from a first of month on the first of the next month |
| Ingest.Windows | collect-data-from-datagrepper.py:167-170 | the windows the main loop would visit with the corrected step; `WindowsSpec` states them |
| Ingest.WindowsSpec | collect-data-from-datagrepper.py:167-170 | with the corrected step, the windows start at `start`, chain without gaps or overlaps, each starts no later than now, the last ends after now, and from the third window on they start on consecutive firsts of month |
| Ingest.WindowsAsWritten | collect-data-from-db.py:200-209 | the windows the main loop visits with `next_month` as written; `WindowsAsWrittenSpec` states them |
| Ingest.WindowsAsWrittenSpec | collect-data-from-datagrepper.py:167-170 | the windows start at `start` and chain without gaps or overlaps; each is 32 days long with the time of day kept and starts no later than now; the last ends after now |
| Ingest.FirstWindowAsWritten | collect-data-from-datagrepper.py:167-170 | from 2023-08-01 with now on 2023-08-15 the loop visits the single window ending on 2023-09-02 |
| Ingest.CollectionWindows | collect-data-from-db.py:200-209 | the main loop, stepping with `next_month` as written, visits exactly the as-written windows |

## Left out

- Network and database I/O: the HTTP pagination of `get_all_pages`, the psycopg2
  connection and cursor queries, and `commit()` on the SQLite connection. The pages
  and the cursor rows are parameters, already filtered to the query's topic and
  time window.
- Index creation in `make_db` and the SQL text (`month_filter`, table names in
  f-strings). Only what the queries mean is modelled.
- `json.loads`, `dateutil` and `datetime.fromisoformat`. Bodies arrive as typed
  records with optional fields; dates arrive as timestamps. JSON `null` and values
  of the wrong type are not modelled. The message `id` and `body` are assumed to be
  present.
- Time zones. A timestamp is a naive date and time of day.
- `date.today()`, `datetime.now()`, `socket.gethostname()`, the `~/.pgpass` file read
  and the module-global `ENV`. These become parameters.
- The CLIs, the CSV writer, the progress bars and all printed output.
- Commented-out code, including the Datagrepper collector's `record_action`, which
  only commented-out code calls.
- Calendar.Valid: dates have year at least 1, and Python's `MAXYEAR` is not modelled.
- MonthlyReport.ShowMonth: for a year below 1000 `strftime` may not zero-pad, and the
  label is only modelled for years 0 to 9999.
- MonthlyReport.AdoptionCell: the `.02f` rendering of the floating-point mean is not
  modelled. The cell holds the exact sum and count.
- MonthlyQuery.LatestOrphan: SQLite leaves the order of rows within one month
  unspecified; the model takes the first in table order.
- MonthlyQuery.PairsOf: `DISTINCT` order is unspecified; the model keeps each pair
  at its last occurrence, and the mean does not depend on the order.
- Rows.DistinctActors: the same holds for `DISTINCT(by)`; the list is only used as a
  set.
- MonthlyQuery.CommittersInFutureMonths: SQLite's limit on the number of bound
  variables in `IN (...)` is not modelled.
- Ingest.CollectionWindows: handing each window to `record_action` and
  `record_commits` is left out. Only the sequence of windows is computed.

## Findings

| source | as written | input that shows it | evidently intended | confidence | as-written member | corrected member |
|---|---|---|---|---|---|---|
| collect-data-from-db.py:63-66, collect-data-from-datagrepper.py:62-65 | `newdate.replace(day=1)` builds a value that is thrown away, so `next_month` returns the date 32 days later | `next_month(datetime(2023, 8, 1))` gives 2023-09-02, not a first of month, and later steps drift further | return `(date + timedelta(days=32)).replace(day=1)`: a first of month in a later month, and from a first of month the first of the next month | not executed | Ingest.NextMonthAsWritten, Ingest.NextMonthAsWrittenDrifts | Ingest.NextMonth (used by Ingest.Windows) |
