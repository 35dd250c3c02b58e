/** The comment-cleaning and submission/comment merging steps of the pipeline.
    Reading and writing delimited files is not modelled: a step starts from the
    table the file holds and ends with the table it would write. The comments
    frame is a mutable object whose columns are assigned in place; each method
    is proved to compute the pure specification function beside it. */
module Pipeline {
  import opened Tables
  import CivilTime
  import ParentIds
  import OuterJoin

  const AuthorFlair: set<string> :=
    {"author_flair_text", "author_flair_type", "author_flair_template_id", "author_flair_richtext"}
  const LinkFlair: set<string> :=
    {"link_flair_text", "link_flair_type", "link_flair_template_id", "link_flair_richtext"}

  const CreatedUtc := "created_utc"
  const CreatedTime := "created_time"
  const Year := "year"
  const ParentId := "parent_id"
  const ParentCleanId := "parent_clean_id"
  const SubmissionId := "submission_id"

  // ---------------------------------------------------------------------------
  // Timestamps

  /** A created_utc cell datetime.fromtimestamp accepts: an integer epoch
      whose UTC calendar year is one a datetime can hold. */
  predicate GoodEpoch(v: Value): (b: bool)
    ensures b <==> v.Int? && CivilTime.MinEpochSeconds <= v.i <= CivilTime.MaxEpochSeconds
  {
    if v.Int? then
      CivilTime.RepresentableRange(v.i);
      CivilTime.Representable(v.i)
    else false
  }

  /** The error datetime.fromtimestamp raises on a bad cell of row `row`. */
  function EpochError(v: Value, row: nat): (e: Error)
    ensures e == InvalidEpoch(row) || e == EpochOutOfRange(row)
    ensures e.EpochOutOfRange? <==> v.Int?
  {
    if v.Int? then EpochOutOfRange(row) else InvalidEpoch(row)
  }

  /** Series.apply(datetime.fromtimestamp) over a created_utc column whose first
      cell is row `start`: every cell becomes the timestamp of the same instant,
      or the first bad cell aborts the whole apply. */
  function CreatedTimes(cells: seq<Value>, start: nat): (r: Result<seq<Value>>)
    ensures r.Ok? <==> forall i :: 0 <= i < |cells| ==> GoodEpoch(cells[i])
    ensures r.Ok? ==> |r.value| == |cells|
    ensures r.Ok? ==> forall i :: 0 <= i < |cells| ==> r.value[i] == Timestamp(cells[i].i)
    ensures r.Err? ==> exists i :: (0 <= i < |cells| && !GoodEpoch(cells[i])
      && (forall j :: 0 <= j < i ==> GoodEpoch(cells[j]))
      && r.error == EpochError(cells[i], start + i))
    decreases |cells|
  {
    if cells == [] then Ok([])
    else if !GoodEpoch(cells[0]) then Err(EpochError(cells[0], start))
    else
      var rest := CreatedTimes(cells[1..], start + 1);
      if rest.Err? then
        FirstBadShift(cells, start, rest.error);
        Err(rest.error)
      else
        assert forall i :: 0 <= i < |cells| - 1 ==> cells[1..][i] == cells[i + 1];
        Ok([Timestamp(cells[0].i)] + rest.value)
  }

  /** The first bad cell of the tail is the first bad cell of the whole column,
      one place further on. */
  lemma FirstBadShift(cells: seq<Value>, start: nat, e: Error)
    requires |cells| > 0 && GoodEpoch(cells[0])
    requires exists i :: (0 <= i < |cells| - 1 && !GoodEpoch(cells[1..][i])
      && (forall j :: 0 <= j < i ==> GoodEpoch(cells[1..][j]))
      && e == EpochError(cells[1..][i], start + 1 + i))
    ensures exists i :: (0 <= i < |cells| && !GoodEpoch(cells[i])
      && (forall j :: 0 <= j < i ==> GoodEpoch(cells[j]))
      && e == EpochError(cells[i], start + i))
  {
    var i :| (0 <= i < |cells| - 1 && !GoodEpoch(cells[1..][i])
      && (forall j :: 0 <= j < i ==> GoodEpoch(cells[1..][j]))
      && e == EpochError(cells[1..][i], start + 1 + i));
    assert cells[1..][i] == cells[i + 1];
    forall j | 0 <= j < i + 1 ensures GoodEpoch(cells[j]) {
      if j > 0 {
        assert cells[1..][j - 1] == cells[j];
      }
    }
  }

  predicate AllTimestamps(cells: seq<Value>) {
    forall i :: 0 <= i < |cells| ==> cells[i].Timestamp?
  }

  /** Series.dt.year: the UTC calendar year of each timestamp. */
  function Years(cells: seq<Value>): (ys: seq<Value>)
    requires AllTimestamps(cells)
    ensures |ys| == |cells|
    ensures forall i :: 0 <= i < |cells| ==> (ys[i].Int?
      && CivilTime.DaysBeforeYear(ys[i].i) - CivilTime.EpochDayNumber <= cells[i].seconds / CivilTime.SecondsPerDay
      && cells[i].seconds / CivilTime.SecondsPerDay
           < CivilTime.DaysBeforeYear(ys[i].i) + CivilTime.DaysInYear(ys[i].i) - CivilTime.EpochDayNumber)
  {
    seq(|cells|, i requires 0 <= i < |cells| => Int(CivilTime.YearOf(cells[i].seconds)))
  }

  // ---------------------------------------------------------------------------
  // Earliest and latest time

  /** Series.min over timestamps: the earliest of them. */
  function Earliest(cells: seq<Value>): (v: Value)
    requires |cells| > 0 && AllTimestamps(cells)
    ensures v in cells
    ensures forall i :: 0 <= i < |cells| ==> v.seconds <= cells[i].seconds
  {
    if |cells| == 1 then cells[0]
    else
      var m := Earliest(cells[1..]);
      assert forall i :: 1 <= i < |cells| ==> cells[i] == cells[1..][i - 1];
      if cells[0].seconds <= m.seconds then cells[0] else m
  }

  /** Series.max over timestamps: the latest of them. */
  function Latest(cells: seq<Value>): (v: Value)
    requires |cells| > 0 && AllTimestamps(cells)
    ensures v in cells
    ensures forall i :: 0 <= i < |cells| ==> cells[i].seconds <= v.seconds
  {
    if |cells| == 1 then cells[0]
    else
      var m := Latest(cells[1..]);
      assert forall i :: 1 <= i < |cells| ==> cells[i] == cells[1..][i - 1];
      if m.seconds <= cells[0].seconds then cells[0] else m
  }

  /** The time range the cleaning step reports: None when there are no rows. */
  function TimeRange(cells: seq<Value>): (r: Option<(Value, Value)>)
    requires AllTimestamps(cells)
    ensures r.Some? <==> |cells| > 0
    ensures r.Some? ==> r.value.0 in cells && r.value.1 in cells
    ensures r.Some? ==> forall i :: 0 <= i < |cells| ==>
      r.value.0.seconds <= cells[i].seconds <= r.value.1.seconds
  {
    if cells == [] then None else Some((Earliest(cells), Latest(cells)))
  }

  // ---------------------------------------------------------------------------
  // clean_comments

  /** The comments table with created_time and year assigned, in that order. */
  function WithTimes(comments: Table, times: seq<Value>): (r: Table)
    requires WellFormed(comments) && |times| == |comments.rows| && AllTimestamps(times)
    ensures WellFormed(r) && |r.rows| == |comments.rows|
  {
    var withTime := WithColumn(comments, CreatedTime, times);
    WithColumn(withTime, Year, Years(Column(withTime, CreatedTime)))
  }

  /** Row i of WithTimes: its instant, that instant's year, and every other cell as it was. */
  lemma WithTimesRow(comments: Table, times: seq<Value>, i: nat)
    requires WellFormed(comments) && |times| == |comments.rows| && AllTimestamps(times)
    requires i < |comments.rows|
    ensures var row := WithTimes(comments, times).rows[i];
      && CreatedTime in row && row[CreatedTime] == times[i]
      && Year in row && row[Year] == Int(CivilTime.YearOf(times[i].seconds))
      && forall c :: c in comments.rows[i] && c != CreatedTime && c != Year ==> c in row && row[c] == comments.rows[i][c]
  {
    var withTime := WithColumn(comments, CreatedTime, times);
    assert withTime.rows[i][CreatedTime] == times[i];
  }

  lemma WithTimesColumns(comments: Table, times: seq<Value>)
    requires WellFormed(comments) && |times| == |comments.rows| && AllTimestamps(times)
    ensures forall c :: c in WithTimes(comments, times).columns <==> c in comments.columns || c == CreatedTime || c == Year
  {
    var withTime := WithColumn(comments, CreatedTime, times);
    assert ColumnSet(withTime) == ColumnSet(comments) + {CreatedTime};
    assert ColumnSet(WithTimes(comments, times)) == ColumnSet(withTime) + {Year};
  }

  /** The comments table clean_comments returns, or the error it raises:
      drop the author-flair columns (absent ones are ignored), add
      created_time from created_utc, then add year from created_time. The
      `.dt` accessor refuses the column apply produces on an empty table. */
  function Cleaned(raw: Table): (r: Result<Table>)
    requires WellFormed(raw)
    ensures r.Ok? ==> WellFormed(r.value) && 0 < |r.value.rows| == |raw.rows|
  {
    var comments := DropColumns(raw, AuthorFlair);
    if CreatedUtc !in comments.columns then Err(MissingColumn(CreatedUtc))
    else
      var times :- CreatedTimes(Column(comments, CreatedUtc), 0);
      if |comments.rows| == 0 then Err(NotDatetimeLike(CreatedTime))
      else Ok(WithTimes(comments, times))
  }

  /** Row i's created_utc cell is not an epoch the conversion accepts. */
  predicate BadEpochAt(raw: Table, i: int)
    requires WellFormed(raw) && CreatedUtc in raw.columns
  {
    0 <= i < |raw.rows| && !GoodEpoch(raw.rows[i][CreatedUtc])
  }

  /** Cleaning fails exactly when created_utc is missing, some created_utc cell
      is not a representable integer epoch, or there are no rows; the error
      names the first cause in that order. */
  lemma CleanedFails(raw: Table)
    requires WellFormed(raw)
    ensures Cleaned(raw).Err? <==>
      || CreatedUtc !in raw.columns
      || (exists i :: BadEpochAt(raw, i))
      || |raw.rows| == 0
    ensures CreatedUtc !in raw.columns ==> Cleaned(raw).Err? && Cleaned(raw).error == MissingColumn(CreatedUtc)
    ensures (CreatedUtc in raw.columns && |raw.rows| == 0) ==>
      Cleaned(raw).Err? && Cleaned(raw).error == NotDatetimeLike(CreatedTime)
    ensures (CreatedUtc in raw.columns && exists i :: BadEpochAt(raw, i)) ==>
      exists i :: (BadEpochAt(raw, i) && (forall j :: 0 <= j < i ==> !BadEpochAt(raw, j))
        && Cleaned(raw).Err? && Cleaned(raw).error == EpochError(Column(raw, CreatedUtc)[i], i))
  {
    var comments := DropColumns(raw, AuthorFlair);
    if CreatedUtc in raw.columns {
      assert CreatedUtc in comments.columns;
      var cells := Column(comments, CreatedUtc);
      var rawCells := Column(raw, CreatedUtc);
      forall i | 0 <= i < |raw.rows| ensures cells[i] == rawCells[i] {
        CreatedUtcKept(raw, i);
      }
      assert cells == rawCells;
      var times := CreatedTimes(cells, 0);
      if times.Err? {
        assert Cleaned(raw) == Err(times.error);
        var i :| (0 <= i < |cells| && !GoodEpoch(cells[i])
          && (forall j :: 0 <= j < i ==> GoodEpoch(cells[j]))
          && times.error == EpochError(cells[i], 0 + i));
        assert BadEpochAt(raw, i);
        forall j | 0 <= j < i ensures !BadEpochAt(raw, j) {
          assert GoodEpoch(cells[j]);
        }
      } else {
        forall i ensures !BadEpochAt(raw, i) {
          if 0 <= i < |raw.rows| {
            assert GoodEpoch(cells[i]);
          }
        }
        if |raw.rows| == 0 {
          assert Cleaned(raw) == Err(NotDatetimeLike(CreatedTime));
        }
      }
    }
  }

  /** A cleaned table keeps every row and every column except the author-flair
      ones, and adds created_time and year. */
  lemma CleanedColumns(raw: Table)
    requires WellFormed(raw) && Cleaned(raw).Ok?
    ensures var t := Cleaned(raw).value;
      && |t.rows| == |raw.rows|
      && (forall c :: c in t.columns <==> (c in raw.columns && c !in AuthorFlair) || c == CreatedTime || c == Year)
  {
    var comments := DropColumns(raw, AuthorFlair);
    DropRemovesExactlyPresent(raw, AuthorFlair);
    var times := CreatedTimes(Column(comments, CreatedUtc), 0).value;
    WithTimesColumns(comments, times);
  }

  /** Row i of the cleaned table holds the instant of its created_utc and the
      UTC year of that instant, within 1..9999, and keeps every other cell
      that is not an author-flair cell. */
  lemma CleanedRow(raw: Table, i: nat)
    requires WellFormed(raw) && Cleaned(raw).Ok? && i < |raw.rows|
    ensures var row := Cleaned(raw).value.rows[i];
      && CreatedUtc in raw.rows[i] && raw.rows[i][CreatedUtc].Int?
      && CreatedTime in row && row[CreatedTime] == Timestamp(raw.rows[i][CreatedUtc].i)
      && Year in row && row[Year] == Int(CivilTime.YearOf(raw.rows[i][CreatedUtc].i))
      && CivilTime.MinYear <= row[Year].i <= CivilTime.MaxYear
      && forall c :: c in raw.rows[i] && c !in AuthorFlair && c != CreatedTime && c != Year ==>
           c in row && row[c] == raw.rows[i][c]
  {
    var comments := DropColumns(raw, AuthorFlair);
    var cells := Column(comments, CreatedUtc);
    var times := CreatedTimes(cells, 0).value;
    CleanedIsWithTimes(raw);
    CreatedUtcKept(raw, i);
    assert cells[i] == raw.rows[i][CreatedUtc];
    WithTimesRow(comments, times, i);
  }

  /** A successful cleaning is the two time assignments on the table without author flair. */
  lemma CleanedIsWithTimes(raw: Table)
    requires WellFormed(raw) && Cleaned(raw).Ok?
    ensures CreatedUtc in DropColumns(raw, AuthorFlair).columns
    ensures CreatedTimes(Column(DropColumns(raw, AuthorFlair), CreatedUtc), 0).Ok?
    ensures Cleaned(raw).value ==
      WithTimes(DropColumns(raw, AuthorFlair), CreatedTimes(Column(DropColumns(raw, AuthorFlair), CreatedUtc), 0).value)
  {
  }

  /** created_utc is not an author-flair column, so the drop keeps its cells. */
  lemma CreatedUtcKept(raw: Table, i: nat)
    requires WellFormed(raw) && i < |raw.rows| && CreatedUtc in raw.columns
    ensures CreatedUtc in raw.rows[i]
    ensures DropColumns(raw, AuthorFlair).rows[i][CreatedUtc] == raw.rows[i][CreatedUtc]
  {
    assert CreatedUtc !in AuthorFlair;
  }

  /** The created_time column of a cleaned table holds timestamps and the year
      column holds their years. */
  lemma CleanedTimestamps(raw: Table)
    requires WellFormed(raw) && Cleaned(raw).Ok?
    ensures var t := Cleaned(raw).value;
      && CreatedTime in t.columns && Year in t.columns
      && forall i :: 0 <= i < |t.rows| ==>
           && t.rows[i][CreatedTime].Timestamp?
           && t.rows[i][Year] == Int(CivilTime.YearOf(t.rows[i][CreatedTime].seconds))
  {
    var t := Cleaned(raw).value;
    CleanedColumns(raw);
    forall i | 0 <= i < |t.rows|
      ensures t.rows[i][CreatedTime].Timestamp?
      ensures t.rows[i][Year] == Int(CivilTime.YearOf(t.rows[i][CreatedTime].seconds))
    {
      CleanedRow(raw, i);
    }
  }

  /** The year of every instant lies between the years of the earliest and the latest. */
  lemma YearsWithinRange(cells: seq<Value>, i: nat)
    requires AllTimestamps(cells) && i < |cells|
    ensures CivilTime.YearOf(TimeRange(cells).value.0.seconds) <= CivilTime.YearOf(cells[i].seconds)
    ensures CivilTime.YearOf(cells[i].seconds) <= CivilTime.YearOf(TimeRange(cells).value.1.seconds)
  {
    var (lo, hi) := TimeRange(cells).value;
    CivilTime.YearOfMonotone(lo.seconds, cells[i].seconds);
    CivilTime.YearOfMonotone(cells[i].seconds, hi.seconds);
  }

  /** Every instant of a timestamp column lies in its time range, and so does its year. */
  lemma TimeRangeYears(cells: seq<Value>, years: seq<Value>)
    requires AllTimestamps(cells) && |cells| > 0 && |years| == |cells|
    requires forall i :: 0 <= i < |cells| ==> years[i] == Int(CivilTime.YearOf(cells[i].seconds))
    ensures var (lo, hi) := TimeRange(cells).value;
      forall i :: 0 <= i < |cells| ==>
        && lo.seconds <= cells[i].seconds <= hi.seconds
        && CivilTime.YearOf(lo.seconds) <= years[i].i <= CivilTime.YearOf(hi.seconds)
  {
    forall i | 0 <= i < |cells|
      ensures CivilTime.YearOf(TimeRange(cells).value.0.seconds) <= years[i].i <= CivilTime.YearOf(TimeRange(cells).value.1.seconds)
    {
      YearsWithinRange(cells, i);
    }
  }

  /** The table has a time range, every row's created_time lies inside it and
      every row's year lies between the years of its two ends. */
  predicate WithinTimeRange(t: Table)
    requires WellFormed(t)
  {
    && CreatedTime in t.columns && Year in t.columns
    && AllTimestamps(Column(t, CreatedTime))
    && TimeRange(Column(t, CreatedTime)).Some?
    && var (lo, hi) := TimeRange(Column(t, CreatedTime)).value;
       forall i :: 0 <= i < |t.rows| ==>
         && lo.seconds <= t.rows[i][CreatedTime].seconds <= hi.seconds
         && t.rows[i][Year].Int?
         && CivilTime.YearOf(lo.seconds) <= t.rows[i][Year].i <= CivilTime.YearOf(hi.seconds)
  }

  /** Any non-empty table whose created_time cells are timestamps and whose
      year cells are their years is within its time range. */
  lemma TableTimeRange(t: Table)
    requires WellFormed(t) && CreatedTime in t.columns && Year in t.columns && |t.rows| > 0
    requires forall i :: 0 <= i < |t.rows| ==>
      && t.rows[i][CreatedTime].Timestamp?
      && t.rows[i][Year] == Int(CivilTime.YearOf(t.rows[i][CreatedTime].seconds))
    ensures WithinTimeRange(t)
  {
    var cells := Column(t, CreatedTime);
    var years := Column(t, Year);
    TimeRangeYears(cells, years);
  }

  /** Every cleaned row lies in the reported time range, and so does its year. */
  lemma CleanedTimeRange(raw: Table)
    requires WellFormed(raw) && Cleaned(raw).Ok?
    ensures WithinTimeRange(Cleaned(raw).value)
  {
    CleanedTimestamps(raw);
    TableTimeRange(Cleaned(raw).value);
  }

  // ---------------------------------------------------------------------------
  // parent-id normalization

  /** str.replace on one cell: strings lose their type tags, anything else is missing. */
  function CleanId(v: Value): (r: Value)
    ensures v.Text? ==> r.Text? && |r.s| <= |v.s|
    ensures v.Text? && !ParentIds.HasMatch(ParentIds.DigitTag, v.s) ==> r == v
    ensures !v.Text? ==> r == Null
  {
    if v.Text? then
      ParentIds.StripMatchesShortens(ParentIds.DigitTag, v.s);
      ParentIds.StripMatchesUnchangedIff(ParentIds.DigitTag, v.s);
      Text(ParentIds.StripTypeTags(v.s))
    else Null
  }

  /** The `.str` accessor needs a column that holds strings. */
  predicate HoldsText(cells: seq<Value>) {
    exists i :: 0 <= i < |cells| && cells[i].Text?
  }

  function CleanIds(cells: seq<Value>): (r: seq<Value>)
    ensures |r| == |cells|
    ensures forall i :: 0 <= i < |cells| ==> r[i] == CleanId(cells[i])
  {
    seq(|cells|, i requires 0 <= i < |cells| => CleanId(cells[i]))
  }

  /** The comments table once merge_submissions_comments has added parent_clean_id. */
  function Normalized(comments: Table): (r: Result<Table>)
    requires WellFormed(comments)
    ensures r.Ok? ==> WellFormed(r.value)
  {
    if ParentId !in comments.columns then Err(MissingColumn(ParentId))
    else
      var parents := Column(comments, ParentId);
      if !HoldsText(parents) then Err(NotStringColumn(ParentId))
      else Ok(WithColumn(comments, ParentCleanId, CleanIds(parents)))
  }

  /** Normalization fails exactly when parent_id is missing or holds no string. */
  lemma NormalizedFails(comments: Table)
    requires WellFormed(comments)
    ensures Normalized(comments).Err? <==>
      ParentId !in comments.columns
      || forall i :: 0 <= i < |comments.rows| ==> !comments.rows[i][ParentId].Text?
  {
    if ParentId in comments.columns {
      var parents := Column(comments, ParentId);
      if !HoldsText(parents) {
        forall i | 0 <= i < |comments.rows| ensures !comments.rows[i][ParentId].Text? {
          assert !parents[i].Text?;
        }
      } else {
        var i :| 0 <= i < |parents| && parents[i].Text?;
        assert comments.rows[i][ParentId].Text?;
      }
    }
  }

  /** Otherwise it adds parent_clean_id, the parent id without its type tags,
      and leaves every other cell alone. */
  lemma NormalizedShape(comments: Table)
    requires WellFormed(comments) && Normalized(comments).Ok?
    ensures var t := Normalized(comments).value;
      && |t.rows| == |comments.rows|
      && ParentCleanId in t.columns
      && (forall i :: 0 <= i < |t.rows| ==> t.rows[i][ParentCleanId] == CleanId(comments.rows[i][ParentId]))
      && (forall i, c :: 0 <= i < |t.rows| && c in comments.rows[i] && c != ParentCleanId ==>
            c in t.rows[i] && t.rows[i][c] == comments.rows[i][c])
  {
    var parents := Column(comments, ParentId);
    var t := WithColumn(comments, ParentCleanId, CleanIds(parents));
    assert Normalized(comments).value == t;
  }

  /** A Reddit parent id "t3_<id>" is normalized to "<id>". */
  lemma CleanIdOfSubmissionTag(digits: string, id: string)
    requires |digits| >= 1 && forall i :: 0 <= i < |digits| ==> '0' <= digits[i] <= '9'
    requires forall i :: 0 <= i < |id| ==> id[i] != '_'
    ensures CleanId(Text("t" + digits + "_" + id)) == Text(id)
  {
    ParentIds.StripSingleTag(digits, id);
  }

  // ---------------------------------------------------------------------------
  // merge_submissions_comments

  /** The comments table as it enters the join. */
  function Comments(raw: Table): (r: Result<Table>)
    requires WellFormed(raw)
    ensures r.Ok? ==> WellFormed(r.value)
  {
    var cleaned :- Cleaned(raw);
    Normalized(cleaned)
  }

  /** The table merge_submissions_comments returns, or the error it raises:
      an indicator outer join of submissions (key submission_id) with the
      normalized comments (key parent_clean_id), without the link-flair columns. */
  function Merged(submissions: Table, raw: Table): (r: Result<Table>)
    requires WellFormed(submissions) && WellFormed(raw)
    ensures r.Ok? ==> WellFormed(r.value)
  {
    var comments :- Comments(raw);
    var merged :- OuterJoin.Join(submissions, comments, SubmissionId, ParentCleanId);
    Ok(DropColumns(merged, LinkFlair))
  }

  /** A successful merge is the join of the submissions with the comments as
      they enter it, without the link-flair columns. */
  lemma MergedIsJoin(submissions: Table, raw: Table)
    requires WellFormed(submissions) && WellFormed(raw) && Merged(submissions, raw).Ok?
    ensures Comments(raw).Ok?
    ensures OuterJoin.Join(submissions, Comments(raw).value, SubmissionId, ParentCleanId).Ok?
    ensures Merged(submissions, raw).value ==
      DropColumns(OuterJoin.Join(submissions, Comments(raw).value, SubmissionId, ParentCleanId).value, LinkFlair)
  {
  }

  /** The names the join gives its two key columns are not link-flair names,
      so the final drop keeps them. */
  lemma KeyNamesKept(submissionCols: seq<string>, commentCols: seq<string>)
    ensures OuterJoin.Suffixed(SubmissionId, commentCols, "_x") !in LinkFlair
    ensures OuterJoin.Suffixed(ParentCleanId, submissionCols, "_y") !in LinkFlair
    ensures OuterJoin.IndicatorColumn !in LinkFlair
  {
    var sid := OuterJoin.Suffixed(SubmissionId, commentCols, "_x");
    var pid := OuterJoin.Suffixed(ParentCleanId, submissionCols, "_y");
    assert sid[0] == 's' && pid[0] == 'p' && OuterJoin.IndicatorColumn[0] == '_';
    forall n | n in LinkFlair ensures |n| > 0 && n[0] == 'l' {}
  }

  /** Row count and columns of the join once the link-flair columns are dropped. */
  lemma DroppedJoinShape(submissions: Table, comments: Table)
    requires WellFormed(submissions) && WellFormed(comments)
    requires OuterJoin.Join(submissions, comments, SubmissionId, ParentCleanId).Ok?
    ensures var t := DropColumns(OuterJoin.Join(submissions, comments, SubmissionId, ParentCleanId).value, LinkFlair);
      && |t.rows| ==
           |OuterJoin.MatchedPairs(submissions.rows, SubmissionId, comments.rows, ParentCleanId)|
           + |OuterJoin.UnmatchedLeft(submissions.rows, SubmissionId, comments.rows, ParentCleanId)|
           + |OuterJoin.UnmatchedRight(submissions.rows, SubmissionId, comments.rows, ParentCleanId)|
      && OuterJoin.IndicatorColumn in t.columns
      && (forall n :: n in LinkFlair ==> n !in t.columns)
  {
    var j := OuterJoin.Join(submissions, comments, SubmissionId, ParentCleanId).value;
    OuterJoin.JoinRowCount(submissions, comments, SubmissionId, ParentCleanId);
    var outs := OuterJoin.OutColumns(submissions.columns, comments.columns);
    assert outs[|outs| - 1].name == OuterJoin.IndicatorColumn;
    assert j.columns[|outs| - 1] == OuterJoin.IndicatorColumn;
    KeyNamesKept(submissions.columns, comments.columns);
  }

  /** The indicator of a row of the join survives the drop together with the two key cells. */
  lemma DroppedJoinIndicator(submissions: Table, comments: Table, k: nat)
    requires WellFormed(submissions) && WellFormed(comments)
    requires OuterJoin.Join(submissions, comments, SubmissionId, ParentCleanId).Ok?
    requires k < |OuterJoin.Join(submissions, comments, SubmissionId, ParentCleanId).value.rows|
    ensures var row := DropColumns(OuterJoin.Join(submissions, comments, SubmissionId, ParentCleanId).value, LinkFlair).rows[k];
      var sid := OuterJoin.LeftKeyOut(submissions, comments, SubmissionId);
      var pid := OuterJoin.RightKeyOut(submissions, comments, ParentCleanId);
      && sid in row && pid in row && OuterJoin.IndicatorColumn in row
      && row[OuterJoin.IndicatorColumn] in
           {Text(OuterJoin.BothTag), Text(OuterJoin.LeftOnlyTag), Text(OuterJoin.RightOnlyTag)}
      && (row[OuterJoin.IndicatorColumn] == Text(OuterJoin.BothTag) <==> row[sid] != Null && row[sid] == row[pid])
  {
    OuterJoin.JoinIndicator(submissions, comments, SubmissionId, ParentCleanId, k);
    OuterJoin.JoinBothIffKeysEqual(submissions, comments, SubmissionId, ParentCleanId, k);
    KeyNamesKept(submissions.columns, comments.columns);
  }

  /** Every output column of one side that the link-flair drop keeps holds the
      cell of that side's source row. */
  predicate KeepsLeft(row: Row, outs: seq<OuterJoin.OutColumn>, l: Row) {
    forall k :: 0 <= k < |outs| && outs[k].side == OuterJoin.LeftSide && outs[k].name !in LinkFlair ==>
      outs[k].name in row && outs[k].source in l && row[outs[k].name] == l[outs[k].source]
  }

  predicate KeepsRight(row: Row, outs: seq<OuterJoin.OutColumn>, r: Row) {
    forall k :: 0 <= k < |outs| && outs[k].side == OuterJoin.RightSide && outs[k].name !in LinkFlair ==>
      outs[k].name in row && outs[k].source in r && row[outs[k].name] == r[outs[k].source]
  }

  /** Every output column of one side that the link-flair drop keeps is Null. */
  predicate NullKept(row: Row, outs: seq<OuterJoin.OutColumn>, side: OuterJoin.Side) {
    forall k :: 0 <= k < |outs| && outs[k].side == side && outs[k].name !in LinkFlair ==>
      outs[k].name in row && row[outs[k].name] == Null
  }

  /** What a merged row says by its indicator: a `both` row carries a
      submission and a comment whose keys match; a `left_only` row carries a
      submission no comment refers to and is Null on every comment column; a
      `right_only` row carries a comment whose parent is no submission and is
      Null on every submission column. Columns the link-flair drop removed are
      not looked at. */
  predicate SidesKept(row: Row, s: seq<Row>, c: seq<Row>, outs: seq<OuterJoin.OutColumn>) {
    && OuterJoin.IndicatorColumn in row
    && (row[OuterJoin.IndicatorColumn] == Text(OuterJoin.BothTag) ==>
          exists i, j :: 0 <= i < |s| && 0 <= j < |c| && OuterJoin.KeysMatch(s[i], SubmissionId, c[j], ParentCleanId)
            && KeepsLeft(row, outs, s[i]) && KeepsRight(row, outs, c[j]))
    && (row[OuterJoin.IndicatorColumn] == Text(OuterJoin.LeftOnlyTag) ==>
          exists i :: 0 <= i < |s| && !OuterJoin.LeftMatched(s, SubmissionId, c, ParentCleanId, i)
            && KeepsLeft(row, outs, s[i]) && NullKept(row, outs, OuterJoin.RightSide))
    && (row[OuterJoin.IndicatorColumn] == Text(OuterJoin.RightOnlyTag) ==>
          exists j :: 0 <= j < |c| && !OuterJoin.RightMatched(s, SubmissionId, c, ParentCleanId, j)
            && KeepsRight(row, outs, c[j]) && NullKept(row, outs, OuterJoin.LeftSide))
  }

  /** What each row of the join still says once the link-flair columns are
      dropped: a `both` row carries a submission and a comment whose keys
      match; a `left_only` row carries a submission no comment refers to and is
      Null on every comment column; a `right_only` row carries a comment whose
      parent is no submission and is Null on every submission column. */
  lemma DroppedJoinSides(submissions: Table, comments: Table, k: nat)
    requires WellFormed(submissions) && WellFormed(comments)
    requires OuterJoin.Join(submissions, comments, SubmissionId, ParentCleanId).Ok?
    requires k < |OuterJoin.Join(submissions, comments, SubmissionId, ParentCleanId).value.rows|
    ensures SidesKept(DropColumns(OuterJoin.Join(submissions, comments, SubmissionId, ParentCleanId).value, LinkFlair).rows[k],
      submissions.rows, comments.rows, OuterJoin.OutColumns(submissions.columns, comments.columns))
  {
    OuterJoin.JoinIndicator(submissions, comments, SubmissionId, ParentCleanId, k);
    KeyNamesKept(submissions.columns, comments.columns);
    DropSides(OuterJoin.Join(submissions, comments, SubmissionId, ParentCleanId).value, k,
      submissions.rows, comments.rows, OuterJoin.OutColumns(submissions.columns, comments.columns));
  }

  lemma DropSides(t: Table, k: nat, s: seq<Row>, c: seq<Row>, outs: seq<OuterJoin.OutColumn>)
    requires WellFormed(t) && k < |t.rows| && OuterJoin.IndicatorColumn !in LinkFlair
    requires OuterJoin.IndicatorColumn in t.rows[k]
    requires OuterJoin.IndicatorSays(t.rows[k], s, SubmissionId, c, ParentCleanId, outs)
    ensures SidesKept(DropColumns(t, LinkFlair).rows[k], s, c, outs)
  {
    SidesAfterDrop(s, c, outs, t.rows[k]);
  }

  /** The indicator facts of one join row, carried through the link-flair drop. */
  lemma SidesAfterDrop(s: seq<Row>, c: seq<Row>, outs: seq<OuterJoin.OutColumn>, jrow: Row)
    requires OuterJoin.IndicatorColumn !in LinkFlair
    requires OuterJoin.IndicatorColumn in jrow
    requires OuterJoin.IndicatorSays(jrow, s, SubmissionId, c, ParentCleanId, outs)
    ensures SidesKept(jrow - LinkFlair, s, c, outs)
  {
    var tag := jrow[OuterJoin.IndicatorColumn];
    if tag == Text(OuterJoin.BothTag) {
      var i, jj :| 0 <= i < |s| && 0 <= jj < |c| && OuterJoin.KeysMatch(s[i], SubmissionId, c[jj], ParentCleanId)
        && OuterJoin.CarriesLeft(jrow, outs, s[i]) && OuterJoin.CarriesRight(jrow, outs, c[jj]);
      DropKeepsSides(jrow, outs, s[i], c[jj]);
    }
    if tag == Text(OuterJoin.LeftOnlyTag) {
      var i :| 0 <= i < |s| && !OuterJoin.LeftMatched(s, SubmissionId, c, ParentCleanId, i)
        && OuterJoin.CarriesLeft(jrow, outs, s[i]) && OuterJoin.NullSide(jrow, outs, OuterJoin.RightSide);
      DropKeepsSides(jrow, outs, s[i], map[]);
    }
    if tag == Text(OuterJoin.RightOnlyTag) {
      var jj :| 0 <= jj < |c| && !OuterJoin.RightMatched(s, SubmissionId, c, ParentCleanId, jj)
        && OuterJoin.CarriesRight(jrow, outs, c[jj]) && OuterJoin.NullSide(jrow, outs, OuterJoin.LeftSide);
      DropKeepsSides(jrow, outs, map[], c[jj]);
    }
  }

  /** Dropping the link-flair cells from a row keeps what it says about the
      columns that remain. */
  lemma DropKeepsSides(row: Row, outs: seq<OuterJoin.OutColumn>, l: Row, r: Row)
    ensures OuterJoin.CarriesLeft(row, outs, l) ==> KeepsLeft(row - LinkFlair, outs, l)
    ensures OuterJoin.CarriesRight(row, outs, r) ==> KeepsRight(row - LinkFlair, outs, r)
    ensures OuterJoin.NullSide(row, outs, OuterJoin.LeftSide) ==> NullKept(row - LinkFlair, outs, OuterJoin.LeftSide)
    ensures OuterJoin.NullSide(row, outs, OuterJoin.RightSide) ==> NullKept(row - LinkFlair, outs, OuterJoin.RightSide)
  {
  }

  /** The merged row count is the number of matched (submission, comment) pairs
      plus the unmatched submissions plus the unmatched comments; there is one
      comment per raw comment row; no link-flair column survives while the
      indicator column does. */
  lemma MergedShape(submissions: Table, raw: Table)
    requires WellFormed(submissions) && WellFormed(raw) && Merged(submissions, raw).Ok?
    ensures Comments(raw).Ok? && |Comments(raw).value.rows| == |raw.rows|
    ensures var c := Comments(raw).value;
      var t := Merged(submissions, raw).value;
      && |t.rows| ==
           |OuterJoin.MatchedPairs(submissions.rows, SubmissionId, c.rows, ParentCleanId)|
           + |OuterJoin.UnmatchedLeft(submissions.rows, SubmissionId, c.rows, ParentCleanId)|
           + |OuterJoin.UnmatchedRight(submissions.rows, SubmissionId, c.rows, ParentCleanId)|
      && OuterJoin.IndicatorColumn in t.columns
      && (forall n :: n in LinkFlair ==> n !in t.columns)
  {
    MergedIsJoin(submissions, raw);
    NormalizedShape(Cleaned(raw).value);
    DroppedJoinShape(submissions, Comments(raw).value);
  }

  /** In every merged row the indicator is one of the three tags, and it says
      `both` exactly when the submission id equals the normalized parent id and
      is not missing. */
  lemma MergedIndicator(submissions: Table, raw: Table, k: nat)
    requires WellFormed(submissions) && WellFormed(raw) && Merged(submissions, raw).Ok?
    requires k < |Merged(submissions, raw).value.rows|
    ensures Comments(raw).Ok?
    ensures var c := Comments(raw).value;
      var row := Merged(submissions, raw).value.rows[k];
      var sid := OuterJoin.LeftKeyOut(submissions, c, SubmissionId);
      var pid := OuterJoin.RightKeyOut(submissions, c, ParentCleanId);
      && sid in row && pid in row && OuterJoin.IndicatorColumn in row
      && row[OuterJoin.IndicatorColumn] in
           {Text(OuterJoin.BothTag), Text(OuterJoin.LeftOnlyTag), Text(OuterJoin.RightOnlyTag)}
      && (row[OuterJoin.IndicatorColumn] == Text(OuterJoin.BothTag) <==> row[sid] != Null && row[sid] == row[pid])
  {
    MergedIsJoin(submissions, raw);
    DroppedJoinIndicator(submissions, Comments(raw).value, k);
  }

  /** In every merged row, a `left_only` submission is Null on every comment
      column that is kept, a `right_only` comment is Null on every submission
      column that is kept, and a `both` row carries a submission and the
      comment whose normalized parent id is that submission's id. */
  lemma MergedSides(submissions: Table, raw: Table, k: nat)
    requires WellFormed(submissions) && WellFormed(raw) && Merged(submissions, raw).Ok?
    requires k < |Merged(submissions, raw).value.rows|
    ensures Comments(raw).Ok?
    ensures SidesKept(Merged(submissions, raw).value.rows[k], submissions.rows, Comments(raw).value.rows,
      OuterJoin.OutColumns(submissions.columns, Comments(raw).value.columns))
  {
    MergedIsJoin(submissions, raw);
    DroppedJoinSides(submissions, Comments(raw).value, k);
  }

  // ---------------------------------------------------------------------------
  // One submission and one comment, end to end

  /** The column names the scenario follows are pairwise different and none is a flair name. */
  lemma ScenarioNamesDiffer()
    ensures ParentId !in AuthorFlair && ParentId != CreatedTime && ParentId != Year
    ensures Year != ParentCleanId && Year !in LinkFlair
    ensures SubmissionId != CreatedTime && SubmissionId != Year && SubmissionId != ParentCleanId
  {
    assert ParentId[0] == 'p' && CreatedTime[0] == 'c' && Year[0] == 'y';
    assert SubmissionId[0] == 's' && ParentCleanId[0] == 'p';
    forall n | n in AuthorFlair ensures n[0] == 'a' {}
    forall n | n in LinkFlair ensures n[0] == 'l' {}
  }

  lemma ScenarioParentId()
    ensures CleanId(Text("t3_s1")) == Text("s1")
  {
    assert "t" + "3" + "_" + "s1" == "t3_s1";
    CleanIdOfSubmissionTag("3", "s1");
  }

  /** Cleaning the comment {parent_id: "t3_s1", created_utc: 1700000000}
      keeps its parent id and gives it the year 2023. */
  lemma ScenarioCleaned(raw: Table)
    requires WellFormed(raw) && |raw.rows| == 1 && CreatedUtc in raw.columns && ParentId in raw.columns
    requires raw.rows[0][CreatedUtc] == Int(1700000000) && raw.rows[0][ParentId] == Text("t3_s1")
    ensures Cleaned(raw).Ok?
    ensures var t := Cleaned(raw).value;
      && |t.rows| == 1 && ParentId in t.rows[0] && Year in t.rows[0]
      && t.rows[0][ParentId] == Text("t3_s1") && t.rows[0][Year] == Int(2023)
      && forall c :: c in t.columns ==> c in raw.columns || c == CreatedTime || c == Year
  {
    assert !BadEpochAt(raw, 0);
    CleanedFails(raw);
    CleanedColumns(raw);
    CleanedRow(raw, 0);
    CivilTime.ToCivilExample();
    ScenarioNamesDiffer();
  }

  /** Normalizing that comment turns its parent id into "s1" and keeps its year. */
  lemma ScenarioNormalized(t: Table)
    requires WellFormed(t) && |t.rows| == 1 && ParentId in t.rows[0] && Year in t.rows[0]
    requires t.rows[0][ParentId] == Text("t3_s1") && t.rows[0][Year] == Int(2023)
    ensures Normalized(t).Ok?
    ensures var n := Normalized(t).value;
      && |n.rows| == 1 && ParentCleanId in n.rows[0] && Year in n.rows[0]
      && n.rows[0][ParentCleanId] == Text("s1") && n.rows[0][Year] == Int(2023)
      && forall c :: c in n.columns ==> c in t.columns || c == ParentCleanId
  {
    NormalizedFails(t);
    NormalizedShape(t);
    ScenarioParentId();
    ScenarioNamesDiffer();
  }

  /** Joining submission {submission_id: "s1"} with that comment and dropping
      the link-flair columns gives one `both` row carrying both ids and the year. */
  lemma ScenarioJoin(submissions: Table, comments: Table)
    requires WellFormed(submissions) && WellFormed(comments)
    requires |submissions.rows| == 1 && SubmissionId in submissions.rows[0]
    requires submissions.rows[0][SubmissionId] == Text("s1")
    requires |comments.rows| == 1 && ParentCleanId in comments.rows[0] && Year in comments.rows[0]
    requires comments.rows[0][ParentCleanId] == Text("s1") && comments.rows[0][Year] == Int(2023)
    requires SubmissionId !in comments.columns
    requires ParentCleanId !in submissions.columns && Year !in submissions.columns
    requires OuterJoin.Join(submissions, comments, SubmissionId, ParentCleanId).Ok?
    ensures var m := DropColumns(OuterJoin.Join(submissions, comments, SubmissionId, ParentCleanId).value, LinkFlair);
      && |m.rows| == 1
      && SubmissionId in m.rows[0] && m.rows[0][SubmissionId] == Text("s1")
      && ParentCleanId in m.rows[0] && m.rows[0][ParentCleanId] == Text("s1")
      && Year in m.rows[0] && m.rows[0][Year] == Int(2023)
      && OuterJoin.IndicatorColumn in m.rows[0] && m.rows[0][OuterJoin.IndicatorColumn] == Text(OuterJoin.BothTag)
  {
    var o := OuterJoin.Both(0, 0);
    assert OuterJoin.KeysMatch(submissions.rows[0], SubmissionId, comments.rows[0], ParentCleanId);
    OuterJoin.JoinSingleMatch(submissions, comments, SubmissionId, ParentCleanId);
    OuterJoin.OutRowCarries(submissions, comments, o);
    OuterJoin.OutRowLeftKey(submissions, comments, SubmissionId, o);
    OuterJoin.OutRowRightKey(submissions, comments, ParentCleanId, o);
    OuterJoin.OutRowRightKey(submissions, comments, Year, o);
    KeyNamesKept(submissions.columns, comments.columns);
    ScenarioNamesDiffer();
  }

  /** The merge of submission {submission_id: "s1"} with comment
      {parent_id: "t3_s1", created_utc: 1700000000}, when it succeeds, is one
      `both` row with submission_id and parent_clean_id "s1" and year 2023. */
  lemma ScenarioMerged(submissions: Table, raw: Table)
    requires WellFormed(submissions) && WellFormed(raw)
    requires |submissions.rows| == 1 && SubmissionId in submissions.columns
    requires submissions.rows[0][SubmissionId] == Text("s1")
    requires |raw.rows| == 1 && CreatedUtc in raw.columns && ParentId in raw.columns
    requires raw.rows[0][CreatedUtc] == Int(1700000000) && raw.rows[0][ParentId] == Text("t3_s1")
    requires SubmissionId !in raw.columns
    requires ParentCleanId !in submissions.columns && Year !in submissions.columns
    requires Merged(submissions, raw).Ok?
    ensures var m := Merged(submissions, raw).value;
      && |m.rows| == 1
      && SubmissionId in m.rows[0] && m.rows[0][SubmissionId] == Text("s1")
      && ParentCleanId in m.rows[0] && m.rows[0][ParentCleanId] == Text("s1")
      && Year in m.rows[0] && m.rows[0][Year] == Int(2023)
      && OuterJoin.IndicatorColumn in m.rows[0] && m.rows[0][OuterJoin.IndicatorColumn] == Text(OuterJoin.BothTag)
  {
    MergedIsJoin(submissions, raw);
    ScenarioCleaned(raw);
    var cleaned := Cleaned(raw).value;
    ScenarioNormalized(cleaned);
    var comments := Comments(raw).value;
    assert comments == Normalized(cleaned).value;
    ScenarioNamesDiffer();
    assert SubmissionId !in comments.columns;
    ScenarioJoin(submissions, comments);
  }

  // ---------------------------------------------------------------------------
  // The comments frame and the two steps as methods

  /** A pandas DataFrame: ordered columns and rows, changed in place. */
  class DataFrame {
    var columns: seq<string>
    var rows: seq<Row>

    function Snapshot(): Table
      reads this
    {
      Table(columns, rows)
    }

    predicate Valid()
      reads this
    {
      WellFormed(Snapshot())
    }

    constructor (t: Table)
      requires WellFormed(t)
      ensures Valid() && Snapshot() == t
    {
      columns := t.columns;
      rows := t.rows;
    }

    /** df[name] = values */
    method Assign(name: string, values: seq<Value>)
      requires Valid() && |values| == |rows|
      modifies this
      ensures Valid()
      ensures Snapshot() == WithColumn(old(Snapshot()), name, values)
    {
      if name !in columns {
        columns := columns + [name];
      }
      var before := rows;
      rows := seq(|before|, i requires 0 <= i < |before| => before[i][name := values[i]]);
    }

    /** df = df.drop(columns=names, errors='ignore') */
    method Drop(names: set<string>)
      requires Valid()
      modifies this
      ensures Valid()
      ensures Snapshot() == DropColumns(old(Snapshot()), names)
    {
      var t := DropColumns(Snapshot(), names);
      columns, rows := t.columns, t.rows;
    }
  }

  /** clean_comments on the table read from the comments file. */
  method CleanComments(raw: Table) returns (r: Result<DataFrame>)
    requires WellFormed(raw)
    ensures r.Ok? <==> Cleaned(raw).Ok?
    ensures r.Err? ==> r.error == Cleaned(raw).error
    ensures r.Ok? ==> fresh(r.value) && r.value.Valid() && r.value.Snapshot() == Cleaned(raw).value
  {
    var comments := new DataFrame(raw);
    comments.Drop(AuthorFlair);
    if CreatedUtc !in comments.columns {
      return Err(MissingColumn(CreatedUtc));
    }
    var times := CreatedTimes(Column(comments.Snapshot(), CreatedUtc), 0);
    if times.Err? {
      return Err(times.error);
    }
    comments.Assign(CreatedTime, times.value);
    if |comments.rows| == 0 {
      return Err(NotDatetimeLike(CreatedTime));
    }
    comments.Assign(Year, Years(Column(comments.Snapshot(), CreatedTime)));
    return Ok(comments);
  }

  /** merge_submissions_comments on the tables read from the two files. */
  method MergeSubmissionsComments(submissions: Table, raw: Table) returns (r: Result<Table>)
    requires WellFormed(submissions) && WellFormed(raw)
    ensures r == Merged(submissions, raw)
  {
    var cleaned := CleanComments(raw);
    if cleaned.Err? {
      return Err(cleaned.error);
    }
    var comments := cleaned.value;
    if ParentId !in comments.columns {
      return Err(MissingColumn(ParentId));
    }
    var parents := Column(comments.Snapshot(), ParentId);
    if !HoldsText(parents) {
      return Err(NotStringColumn(ParentId));
    }
    comments.Assign(ParentCleanId, CleanIds(parents));
    var merged := OuterJoin.Join(submissions, comments.Snapshot(), SubmissionId, ParentCleanId);
    if merged.Err? {
      return Err(merged.error);
    }
    return Ok(DropColumns(merged.value, LinkFlair));
  }
}
