# Reddit comments pipeline — a verified model

This project models the table logic of `src/data_pipeline.py`, a small
pipeline over Reddit comments and submissions. It covers four steps:

- **Counting.** `count_posts_comments` counts the distinct parent ids and the
  distinct comment ids of the loaded comments table with two
  `COUNT(DISTINCT …)` queries.
- **Cleaning.** `clean_comments` drops the four author-flair columns, if
  present, from the comments table. It then turns `created_utc`, whole seconds
  since 1970-01-01T00:00:00Z, into a UTC `created_time` and adds the calendar
  `year` of that instant. It also reports the earliest and latest
  `created_time`.
- **Rewriting parent ids.** `merge_submissions_comments` derives
  `parent_clean_id` from `parent_id`. The comment on line 101 says the step is
  meant to remove the Reddit type tag (`t1_`, `t3_`, …). The pattern as
  written does not match such a tag, so it leaves `t3_abc` unchanged. The
  model uses the intended `t[0-9]+_` rewrite, as recorded under "Findings".
- **Merging.** The same function outer-joins the submissions
  (`submission_id`) with the cleaned comments (`parent_clean_id`) with a
  provenance indicator. It then drops the four link-flair columns, if
  present.

A table is an ordered list of column names plus a sequence of rows. Each row
maps every column name to a cell: `Null`, an integer, a string or a UTC
timestamp in whole seconds (module `Tables`). The modules follow the steps:

- `CivilTime` converts an epoch to the proleptic Gregorian calendar, using the
  same 400/100/4/1-year cascade as Python's `datetime`. It proves both round
  trips and the bounds of the year.
- `ParentIds` implements the regular-expression rewrite. It has two patterns:
  the intended `t[0-9]+_`, and the pattern as written. See "Findings".
- `OuterJoin` specifies `pd.merge(how="outer", indicator=True)`. It builds a
  plan of (left, right) origins, then builds the output rows from that plan.
- `DistinctCounts` specifies `COUNT(DISTINCT c)`.
- `Pipeline` holds the cleaning and merging steps as pure functions (`Cleaned`,
  `Merged`). It also holds a `DataFrame` class whose columns are assigned in
  place, as the source does. The methods `CleanComments` and
  `MergeSubmissionsComments` are proved to compute those functions.

The parent-id rewrite (src/data_pipeline.py:101-104) is modelled as follows:

- The comment on line 101 speaks of removing a prefix. But
  `str.replace(..., regex=True)` on lines 102-104 removes every
  non-overlapping match anywhere in the value, scanning left to right.
  `StripMatches` does what the call does.
- The regular expression as written on line 103 does not match the `t1_` and
  `t3_` tags that the comment on line 101 names. The model follows the
  comment: the rewrite it uses strips `t[0-9]+_`. What the pattern as written
  does is modelled too, and recorded under "Findings".

## Model

| member | source | states |
|---|---|---|
| Tables.DropColumns | src/data_pipeline.py:64-67 | The tolerant drop never fails. The result is well formed and keeps every row; its columns are the old ones minus the named ones, in order; each row is the old row without the named cells. |
| Tables.DropRemovesExactlyPresent | src/data_pipeline.py:64-67 | Exactly the named columns that are present are removed: the new column set is the old one minus the names, and its size drops by the number present. Every other cell is kept. |
| Tables.DropIdempotent | src/data_pipeline.py:117-120 | Dropping the same names twice gives the same table as dropping them once. |
| Tables.WithoutConcat | src/data_pipeline.py:117-120 | Filtering names distributes over concatenation, so the drop keeps the relative order of the surviving columns. |
| Tables.WithColumn | src/data_pipeline.py:75 | Column assignment: an existing column is overwritten where it stands and a new one is appended last. The row count is kept, every row gets the given cell, and every other cell is unchanged. |
| Pipeline.DataFrame.constructor | src/data_pipeline.py:61 | A frame built from a well-formed table holds exactly that table. |
| Pipeline.DataFrame.Assign | src/data_pipeline.py:70 | In-place `df[name] = values`: the frame stays well formed and its new contents are `WithColumn` of its old contents. |
| Pipeline.DataFrame.Drop | src/data_pipeline.py:64 | In-place reassignment `df = df.drop(...)`: the new contents are the tolerant drop of the old contents. |
| CivilTime.DaysBeforeYear | src/data_pipeline.py:71 | The day number of January 1st of a year counts 365 or 366 days for each earlier year. `YearOfDayNumber` and the round-trip lemmas build on it. |
| CivilTime.MonthOf | src/data_pipeline.py:71 | The month of a day of the year is the one whose span of days holds it. |
| CivilTime.EpochDay | src/data_pipeline.py:71 | The day of an instant is the floor of seconds / 86400: the day starts at or before the instant and the next day starts after it. |
| CivilTime.YearOfDayNumber | src/data_pipeline.py:75 | The 400/100/4/1-year cascade finds the year whose span of day numbers holds the given day. |
| CivilTime.DateOfDayNumber | src/data_pipeline.py:71 | A day number becomes a valid calendar date: month 1..12 and a day within the month. |
| CivilTime.DayNumberOfDate | src/data_pipeline.py:71 | Converting a day number to a date and back returns the same day number. |
| CivilTime.DateOfDayNumberOf | src/data_pipeline.py:71 | Converting a valid date to its day number and back returns the same date. |
| CivilTime.ToCivil | src/data_pipeline.py:70-72 | `datetime.fromtimestamp(x, tz=timezone.utc)` gives a valid date with hour 0..23, minute 0..59 and second 0..59. |
| CivilTime.FromCivilToCivil | src/data_pipeline.py:70-72 | Converting an instant to UTC fields and back returns the same instant. |
| CivilTime.ToCivilFromCivil | src/data_pipeline.py:70-72 | Converting valid UTC fields to an instant and back returns the same fields. |
| CivilTime.YearOf | src/data_pipeline.py:75 | `.dt.year`: the instant lies inside the returned year, from its first second to the start of the next year. |
| CivilTime.YearOfUnique | src/data_pipeline.py:75 | Only one year's span holds a given instant, so `YearOf` is determined by the calendar. |
| CivilTime.YearOfMonotone | src/data_pipeline.py:78-79 | A later instant never has an earlier year. |
| CivilTime.YearOfEpoch | src/data_pipeline.py:75 | Second 0 is in 1970; second -1 is in 1969. |
| CivilTime.ToCivilExample | src/data_pipeline.py:70-75 | 1700000000 is 2023-11-14T22:13:20Z, so its year is 2023. |
| CivilTime.ToCivilLeapDay | src/data_pipeline.py:70-72 | 951782400 is 2000-02-29T00:00:00Z (a leap day in a 400-year leap year). |
| CivilTime.RepresentableRange | src/data_pipeline.py:71 | An instant's year is in 1..9999, the range `datetime` accepts, exactly when the instant is in -62135596800..253402300799. |
| ParentIds.RunLength | src/data_pipeline.py:103 | The repeat run of a pattern (`[0-9]+` in the intended one, `d+` in the one as written) is greedy: it covers only repeat characters and stops at the first character that is not one. |
| ParentIds.MatchLength | src/data_pipeline.py:102-104 | A match at the start of the value exists exactly when the returned length is positive, and that length is a match. |
| ParentIds.MatchIsLongestRun | src/data_pipeline.py:103 | Any match at the start ends just after the longest run of repeats, so the greedy match is the only one. |
| ParentIds.StripMatches | src/data_pipeline.py:102-104 | `re.sub` with an empty replacement scans left to right and removes each non-overlapping match at the first position where one starts. It never lengthens the value; `StripMatchesUnchangedIff` states when it changes it. |
| ParentIds.StripTypeTags | src/data_pipeline.py:101-104 | The intended rewrite (`t[0-9]+_`) never lengthens a value, and it leaves a value unchanged exactly when the value holds no tag. |
| ParentIds.StripLiteralTags | src/data_pipeline.py:102-104 | The rewrite with the pattern as written (`t`, backslash, `d+`, `_`) never lengthens a value, and it leaves a value unchanged exactly when the value holds no such match. |
| ParentIds.StripMatchesShortens | src/data_pipeline.py:102-104 | The rewrite never lengthens a value; when it changes one, it removes at least one whole tag (three characters). |
| ParentIds.StripMatchesUnchangedIff | src/data_pipeline.py:102-104 | A value is left unchanged exactly when it contains no match anywhere. |
| ParentIds.StripLeadingTag | src/data_pipeline.py:101-104 | A leading `t<digits>_` is removed and the rewrite continues on the rest. |
| ParentIds.StripNoUnderscore | src/data_pipeline.py:101-104 | A value without an underscore holds no tag and is returned unchanged. |
| ParentIds.StripSingleTag | src/data_pipeline.py:101-104 | A value made of one tag `t<digits>_` and an id without underscores becomes the id. |
| ParentIds.StripCommentTag | src/data_pipeline.py:101 | `t1_abc` becomes `abc`. |
| ParentIds.StripSubmissionTag | src/data_pipeline.py:101 | `t3_xyz` becomes `xyz`. |
| ParentIds.LiteralPatternNeedsBackslash | src/data_pipeline.py:102-104 | The pattern as written leaves unchanged every value that has no backslash. |
| ParentIds.LiteralPatternKeepsTypeTag | src/data_pipeline.py:102-104 | The pattern as written leaves `t3_abc` unchanged. |
| ParentIds.DigitPatternStripsTypeTag | src/data_pipeline.py:101-104 | The intended pattern turns `t3_abc` into `abc`. |
| ParentIds.LiteralPatternExample | src/data_pipeline.py:103 | What the pattern as written does remove: `t`, a backslash, `dd`, `_`. |
| OuterJoin.KeysMatch | src/data_pipeline.py:111-112 | A submission and a comment match when `submission_id` equals `parent_clean_id`. A missing or Null key on either side never matches. |
| OuterJoin.PairsOf | src/data_pipeline.py:107-114 | The pairs a left row forms are exactly the right rows whose keys match it, each listed once. |
| OuterJoin.LeftPlan | src/data_pipeline.py:107-114 | The left part of the plan has one `both` origin per matching pair and one `left_only` origin per unmatched left row, with no repeats. |
| OuterJoin.RightPlan | src/data_pipeline.py:107-114 | The right part of the plan has one `right_only` origin per unmatched right row, with no repeats. |
| OuterJoin.Plan | src/data_pipeline.py:107-114 | The outer merge's rows, as (submission, comment) origins, listed without repeats. `PlanContents` and `PlanSize` state which origins they are and how many. |
| OuterJoin.PlanContents | src/data_pipeline.py:107-114 | The plan holds exactly the matching pairs, the unmatched left rows and the unmatched right rows. |
| OuterJoin.PlanSize | src/data_pipeline.py:107-114 | The plan length is matching pairs plus unmatched left rows plus unmatched right rows. |
| OuterJoin.PlanCoversInputs | src/data_pipeline.py:110 | Every left row and every right row is the source of some output row, and no output row has any other source. |
| OuterJoin.OutColumns | src/data_pipeline.py:107-114 | Output columns are the left columns (suffix `_x` on overlap), then the right columns (suffix `_y` on overlap), then `_merge`. |
| OuterJoin.OutRow | src/data_pipeline.py:107-114 | An output row has exactly the output columns; each cell comes from its side's source row, or is Null if the row has no source on that side. |
| OuterJoin.Join | src/data_pipeline.py:107-114 | The join fails exactly on a missing key column, an input column the indicator reserves, or colliding output names. Otherwise the output is well formed, has one row per plan entry, and row k is built from plan entry k. |
| OuterJoin.Assemble | src/data_pipeline.py:107-114 | The rows built from a plan with distinct output names form a well-formed table with those columns, one row per plan entry, row k built from entry k. |
| OuterJoin.OutRowCarries | src/data_pipeline.py:107-114 | A row from a left source carries every cell of that left row; a row with no left source is Null on every left column; the right side is symmetric. |
| OuterJoin.JoinIndicator | src/data_pipeline.py:113 | `_merge` is one of three tags. `both` rows pair a left and a right row with matching keys and carry both. `left_only` rows carry a left row that matches nothing and are Null on the right. `right_only` rows are the converse. |
| OuterJoin.JoinBothIffKeysEqual | src/data_pipeline.py:111-113 | The indicator is `both` exactly when the row's left key cell is non-null and equals its right key cell. |
| OuterJoin.JoinKeepsEveryRow | src/data_pipeline.py:110 | Every submission row and every comment row is carried by at least one output row. |
| OuterJoin.JoinRowCount | src/data_pipeline.py:107-114 | Output rows = matching pairs + unmatched submissions + unmatched comments. |
| OuterJoin.DisjointColumnsKeepNames | src/data_pipeline.py:107-114 | With no overlapping names, no suffix is added: the output names are the left names, the right names, then `_merge`, all distinct. |
| OuterJoin.JoinSingleMatch | src/data_pipeline.py:107-114 | One left row and one right row with matching keys join into exactly one `both` row built from the two. |
| DistinctCounts.NonNullValues | src/data_pipeline.py:38-41 | The values `COUNT(DISTINCT c)` counts: no Null, and every non-null cell of the column. |
| DistinctCounts.NonNullValuesBound | src/data_pipeline.py:38-41 | There are never more distinct non-null values than rows. |
| DistinctCounts.CountIsRowCountIff | src/data_pipeline.py:38-41 | The distinct count equals the row count exactly when every row has a non-null value and no two rows share one. |
| DistinctCounts.CountDistinct | src/data_pipeline.py:38-41 | `COUNT(DISTINCT c)` fails exactly when the column does not exist. Otherwise it is the number of distinct non-null values, at most the row count. |
| DistinctCounts.CountPostsComments | src/data_pipeline.py:38-45 | Returns the number of distinct non-null `parent_id` values and of distinct non-null `comment_id` values, each at most the row count. Fails exactly when either column is missing. |
| Pipeline.GoodEpoch | src/data_pipeline.py:71 | `datetime.fromtimestamp` accepts a cell exactly when it is an integer in -62135596800..253402300799, the instants of years 1..9999. |
| Pipeline.EpochError | src/data_pipeline.py:71 | A rejected cell names its row. A non-integer gives `InvalidEpoch`; an integer outside the range gives `EpochOutOfRange`. |
| Pipeline.CreatedTimes | src/data_pipeline.py:70-72 | Applying `fromtimestamp` to the column succeeds exactly when every cell is an integer epoch in the `datetime` range, giving the timestamp of each. Otherwise the first bad cell's row is reported: a non-integer gives `InvalidEpoch`, a year outside the range gives `EpochOutOfRange`. |
| Pipeline.Years | src/data_pipeline.py:75 | Each year is the calendar year whose days contain the timestamp's day. |
| Pipeline.Earliest | src/data_pipeline.py:78 | The minimum is a `created_time` of the table and is no later than any other. |
| Pipeline.Latest | src/data_pipeline.py:79 | The maximum is a `created_time` of the table and is no earlier than any other. |
| Pipeline.TimeRange | src/data_pipeline.py:78-79 | There is a range exactly when there are rows; both ends are values of the column, and every value lies between them. |
| Pipeline.WithTimes | src/data_pipeline.py:70-75 | Assigning `created_time` and then `year` keeps the table well formed and its row count. `WithTimesRow` gives each row's content. |
| Pipeline.WithTimesRow | src/data_pipeline.py:70-75 | After both assignments a row holds the given timestamp and that timestamp's year; every other cell is kept. |
| Pipeline.Cleaned | src/data_pipeline.py:48-83 | A cleaned table is well formed, keeps the row count, and is never empty. |
| Pipeline.CleanedFails | src/data_pipeline.py:64-75 | Cleaning fails exactly when `created_utc` is missing, some cell is not an epoch `datetime` accepts, or the table is empty. Each failure names its cause, checked in that order; an epoch error names the first bad row and its cell. |
| Pipeline.CleanedColumns | src/data_pipeline.py:64-75 | The cleaned columns are the raw columns minus the author-flair ones, plus `created_time` and `year`; the row count is kept. |
| Pipeline.CleanedRow | src/data_pipeline.py:70-75 | Each row's `created_time` is the instant of its `created_utc`, and its `year` is the UTC year of that instant, within 1..9999. Every other non-flair cell is kept. |
| Pipeline.CleanedTimestamps | src/data_pipeline.py:75 | In a cleaned table every `created_time` is a timestamp and every `year` is its year. |
| Pipeline.YearsWithinRange | src/data_pipeline.py:78-79 | Every instant's year lies between the years of the earliest and the latest instant. |
| Pipeline.TimeRangeYears | src/data_pipeline.py:78-79 | On a non-empty timestamp column, every instant and every derived year lies inside the reported range. |
| Pipeline.TableTimeRange | src/data_pipeline.py:78-79 | The same holds for any table whose `year` cells are the years of its `created_time` cells. |
| Pipeline.CleanedTimeRange | src/data_pipeline.py:78-79 | For a cleaned table, the range exists, every row's `created_time` lies in it, and every row's `year` lies between the years of its ends. |
| Pipeline.CleanId | src/data_pipeline.py:102-104 | A string parent id loses its tags and never grows, and one without a tag is kept. A non-string becomes missing. |
| Pipeline.CleanIds | src/data_pipeline.py:102 | `Series.str.replace` over a column: one result per cell, each the `CleanId` of that cell. |
| Pipeline.Normalized | src/data_pipeline.py:102-104 | Adding `parent_clean_id` keeps the table well formed. |
| Pipeline.NormalizedFails | src/data_pipeline.py:102-104 | Adding `parent_clean_id` fails exactly when `parent_id` is missing or no row's `parent_id` is a string. |
| Pipeline.NormalizedShape | src/data_pipeline.py:102-104 | When it succeeds, each row's `parent_clean_id` is the cleaned `parent_id`, every other cell is kept, and the row count is kept. |
| Pipeline.CleanIdOfSubmissionTag | src/data_pipeline.py:101-104 | A parent id `t<digits>_<id>`, where `<id>` has no underscore, becomes `<id>`. |
| Pipeline.Comments | src/data_pipeline.py:99-104 | The comments table entering the join is well formed. |
| Pipeline.Merged | src/data_pipeline.py:86-127 | The merged table is well formed. |
| Pipeline.KeyNamesKept | src/data_pipeline.py:117-120 | The output names of both key columns and `_merge` are not link-flair names, so the final drop keeps them. |
| Pipeline.DroppedJoinShape | src/data_pipeline.py:107-120 | After the drop: row count = matching pairs + unmatched submissions + unmatched comments, `_merge` is present, and no link-flair column remains. |
| Pipeline.DroppedJoinIndicator | src/data_pipeline.py:107-120 | After the drop, each row still has its two key cells and an indicator from the three tags. The indicator is `both` exactly when the key cells are equal and non-null. |
| Pipeline.MergedShape | src/data_pipeline.py:107-120 | A merge has one comment per raw comment row and matched pairs + unmatched submissions + unmatched comments rows. It keeps `_merge` and no link-flair column. |
| Pipeline.DroppedJoinSides | src/data_pipeline.py:107-120 | After the link-flair drop, a `both` row still carries a submission and a comment whose keys match. A `left_only` row carries a submission no comment refers to and is Null on every kept comment column. A `right_only` row carries a comment whose parent is no submission and is Null on every kept submission column. |
| Pipeline.MergedSides | src/data_pipeline.py:107-120 | The same holds of every row of the merged table: `left_only` submissions are Null on every comment column, `right_only` comments are Null on every submission column, and `both` rows pair a submission with a comment whose `parent_clean_id` is its `submission_id`. |
| Pipeline.MergedIndicator | src/data_pipeline.py:107-120 | In every merged row the indicator is one of the three tags, and it is `both` exactly when `submission_id` equals `parent_clean_id` and is not missing. |
| Pipeline.ScenarioCleaned | src/data_pipeline.py:64-75 | Cleaning a comment with `parent_id` `t3_s1` and `created_utc` 1700000000 succeeds, keeps its parent id and gives it year 2023. |
| Pipeline.ScenarioNormalized | src/data_pipeline.py:102-104 | Normalizing that comment gives `parent_clean_id` `s1` and keeps its year. |
| Pipeline.ScenarioJoin | src/data_pipeline.py:107-120 | Joining submission `s1` with that comment gives one `both` row with `submission_id` and `parent_clean_id` `s1` and year 2023. |
| Pipeline.ScenarioMerged | src/data_pipeline.py:86-120 | A successful merge of submission `s1` with comment `t3_s1` at 1700000000 is that single `both` row. |
| Pipeline.CleanComments | src/data_pipeline.py:48-83 | The method fails exactly when `Cleaned` fails, with the same error. Otherwise it returns a fresh frame holding exactly `Cleaned`'s table. |
| Pipeline.MergeSubmissionsComments | src/data_pipeline.py:86-127 | The method's result, table or error, is exactly `Merged` of its inputs. |

## Left out

- Reading and writing files: `load_to_sqlite` (src/data_pipeline.py:11-25), `pd.read_csv`, `to_csv` and `main`'s fixed paths. A step starts from the table the file holds and ends with the table it would write. The SQLite store is not modelled; counting reads the loaded table directly, as a pure function, so it cannot change the table.
- Diagnostic output: the `print` calls and `merged.info()`. The earliest and latest times are not part of `Cleaned` or `CleanComments`. `TimeRange` is a separate function, and `CleanedTimeRange` ties it to the cleaned table.
- `src/reddit_data/utils.py` is not part of this model. `calculate_average` and `format_currency` are floating-point helpers that the pipeline never calls.
- Pipeline.CreatedTimes: `created_utc` is an integer cell. pandas' dtype inference, float epochs (a column with a missing value is read as floats), and the narrower range of pandas' nanosecond timestamps (years 1677..2262) are not modelled. Only Python `datetime`'s range, years 1..9999, is enforced.
- Pipeline.Cleaned: on a table with no rows, the step is modelled as failing at `.dt` because the column `apply` returns is not datetime-typed. This follows pandas' treatment of an empty object column; the model does not derive it from dtypes.
- Pipeline.NormalizedFails: the `.str` accessor is modelled as failing exactly when `parent_id` holds no string. That condition approximates pandas' dtype check; non-string cells in a string column become missing.
- OuterJoin.OutColumns: the key columns are always suffixed on overlap. When the two key names are equal, pandas keeps one unsuffixed key column, and the model instead gives `k_x`, `k_y`. The pipeline's keys, `submission_id` and `parent_clean_id`, differ.
- OuterJoin.Join: any repeated output column name is reported as an error. pandas only raises when a suffixed name collides on one side; some collisions across sides that pandas lets through are rejected here.
- Pipeline.ScenarioMerged: the merge is assumed to succeed. That its column names do not collide is not derived for concrete column lists.
- OuterJoin.KeysMatch: missing keys never match. pandas' matching of NaN with NaN is not modelled.
- OuterJoin.Plan: row order is not modelled. pandas sorts an outer merge by key; the model fixes an order (left rows with their matches, then unmatched right rows) and states every property about membership and counts.
- ParentIds.Repeats: the intended repeat class is ASCII `[0-9]`. A `\d` in a Python pattern would also match other Unicode decimal digits.

## Findings

| source | as written | input that shows it | evidently intended | confidence | as-written member | corrected member |
|---|---|---|---|---|---|---|
| src/data_pipeline.py:102-104 | The raw string `r"t\\d+_"` is the regular expression `t`, a literal backslash, one or more `d`, then `_`. It never matches a Reddit type tag. | `parent_id` = `t3_abc` comes back as `t3_abc`, so it never joins `submission_id` = `abc`. | Strip `t[0-9]+_` (the comment on line 101), giving `abc`. | high; not executed | ParentIds.LiteralPatternKeepsTypeTag | ParentIds.DigitPatternStripsTypeTag |

The model uses the corrected rewrite (`ParentIds.StripTypeTags`) in `Pipeline.CleanId`.
