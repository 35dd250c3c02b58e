/** SELECT COUNT(DISTINCT c) FROM comment_table, over the comments table as
    it was loaded into the store. */
module DistinctCounts {
  import opened Tables

  const ParentId := "parent_id"
  const CommentId := "comment_id"

  /** The distinct non-null values of column c. */
  function NonNullValues(rows: seq<Row>, c: string): (vs: set<Value>)
    ensures Null !in vs
    ensures forall i :: 0 <= i < |rows| && c in rows[i] && rows[i][c] != Null ==> rows[i][c] in vs
  {
    set i | 0 <= i < |rows| && c in rows[i] && rows[i][c] != Null :: rows[i][c]
  }

  lemma NonNullValuesSnoc(rows: seq<Row>, row: Row, c: string)
    ensures NonNullValues(rows + [row], c) ==
      NonNullValues(rows, c) + (if c in row && row[c] != Null then {row[c]} else {})
  {
    var all := rows + [row];
    forall v | v in NonNullValues(all, c)
      ensures v in NonNullValues(rows, c) || (c in row && v == row[c])
    {
      var i :| 0 <= i < |all| && c in all[i] && all[i][c] != Null && all[i][c] == v;
      if i < |rows| {
        assert all[i] == rows[i];
      }
    }
    forall v | v in NonNullValues(rows, c) ensures v in NonNullValues(all, c) {
      var i :| 0 <= i < |rows| && c in rows[i] && rows[i][c] != Null && rows[i][c] == v;
      assert all[i] == rows[i];
    }
    if c in row && row[c] != Null {
      assert all[|rows|] == row;
    }
  }

  /** There are never more distinct values than rows. */
  lemma {:induction false} NonNullValuesBound(rows: seq<Row>, c: string)
    ensures |NonNullValues(rows, c)| <= |rows|
    decreases |rows|
  {
    if rows != [] {
      var init := rows[..|rows| - 1];
      assert rows == init + [rows[|rows| - 1]];
      NonNullValuesSnoc(init, rows[|rows| - 1], c);
      NonNullValuesBound(init, c);
    }
  }

  /** Every row has a non-null value in c and no two rows share one. */
  predicate UniqueNonNull(rows: seq<Row>, c: string) {
    && (forall i :: 0 <= i < |rows| ==> c in rows[i] && rows[i][c] != Null)
    && (forall i, j :: 0 <= i < j < |rows| ==> rows[i][c] != rows[j][c])
  }

  /** Appending a row keeps the column a key exactly when the new row has a
      non-null value not seen before. */
  lemma UniqueSnoc(rows: seq<Row>, row: Row, c: string)
    ensures UniqueNonNull(rows + [row], c) <==>
      UniqueNonNull(rows, c) && c in row && row[c] != Null && row[c] !in NonNullValues(rows, c)
  {
    var all := rows + [row];
    assert forall i :: 0 <= i < |rows| ==> all[i] == rows[i];
    assert all[|rows|] == row;
    if UniqueNonNull(all, c) {
      forall i | 0 <= i < |rows| ensures rows[i][c] != row[c] {
        assert all[i][c] != all[|rows|][c];
      }
    }
    if UniqueNonNull(rows, c) && c in row && row[c] != Null && row[c] !in NonNullValues(rows, c) {
      forall i, j | 0 <= i < j < |all| ensures all[i][c] != all[j][c] {
        if j == |rows| {
          assert rows[i][c] in NonNullValues(rows, c);
        }
      }
    }
  }

  lemma {:induction false} UniqueCountsEveryRow(rows: seq<Row>, c: string)
    requires UniqueNonNull(rows, c)
    ensures |NonNullValues(rows, c)| == |rows|
    decreases |rows|
  {
    if rows != [] {
      var init := rows[..|rows| - 1];
      var last := rows[|rows| - 1];
      assert rows == init + [last];
      NonNullValuesSnoc(init, last, c);
      UniqueSnoc(init, last, c);
      UniqueCountsEveryRow(init, c);
    }
  }

  lemma {:induction false} FullCountIsUnique(rows: seq<Row>, c: string)
    requires |NonNullValues(rows, c)| == |rows|
    ensures UniqueNonNull(rows, c)
    decreases |rows|
  {
    if rows != [] {
      var init := rows[..|rows| - 1];
      var last := rows[|rows| - 1];
      assert rows == init + [last];
      NonNullValuesSnoc(init, last, c);
      NonNullValuesBound(init, c);
      FullCountIsUnique(init, c);
      UniqueSnoc(init, last, c);
    }
  }

  /** The count reaches the row count exactly when the column is a key: non-null
      in every row and never repeated. */
  lemma CountIsRowCountIff(rows: seq<Row>, c: string)
    ensures |NonNullValues(rows, c)| == |rows| <==> UniqueNonNull(rows, c)
  {
    if UniqueNonNull(rows, c) {
      UniqueCountsEveryRow(rows, c);
    }
    if |NonNullValues(rows, c)| == |rows| {
      FullCountIsUnique(rows, c);
    }
  }

  /** COUNT(DISTINCT c): the number of distinct non-null values; an unknown column is an error. */
  function CountDistinct(t: Table, c: string): (r: Result<nat>)
    requires WellFormed(t)
    ensures r.Err? <==> c !in t.columns
    ensures r.Err? ==> r.error == MissingColumn(c)
    ensures r.Ok? ==> r.value == |NonNullValues(t.rows, c)| && r.value <= |t.rows|
  {
    if c !in t.columns then Err(MissingColumn(c))
    else
      NonNullValuesBound(t.rows, c);
      Ok(|NonNullValues(t.rows, c)|)
  }

  /** count_posts_comments: distinct parent ids (posts referenced by comments)
      and distinct comment ids, each at most the row count. */
  function CountPostsComments(t: Table): (r: Result<(nat, nat)>)
    requires WellFormed(t)
    ensures r.Ok? <==> ParentId in t.columns && CommentId in t.columns
    ensures r.Ok? ==> r.value.0 <= |t.rows| && r.value.1 <= |t.rows|
    ensures r.Ok? ==> r.value.0 == |NonNullValues(t.rows, ParentId)| && r.value.1 == |NonNullValues(t.rows, CommentId)|
  {
    var posts :- CountDistinct(t, ParentId);
    var comments :- CountDistinct(t, CommentId);
    Ok((posts, comments))
  }
}
