/** Tables as the pipeline sees them once a delimited file has been read:
    an ordered list of column names and a sequence of rows, each row a map
    from column name to a cell. A missing cell is an explicit Null. */
module Tables {

  /** A cell. Timestamp holds a UTC instant as whole seconds since
      1970-01-01T00:00:00Z. */
  datatype Value = Null | Int(i: int) | Text(s: string) | Timestamp(seconds: int)

  type Row = map<string, Value>

  datatype Table = Table(columns: seq<string>, rows: seq<Row>)

  /** Why a pipeline step gives up. Every error aborts the whole step. */
  datatype Error =
    | MissingColumn(name: string)       // a column the step reads is not in the table
    | InvalidEpoch(row: nat)            // created_utc of that row is not an integer epoch
    | EpochOutOfRange(row: nat)         // its calendar year is outside 1..9999
    | NotDatetimeLike(name: string)     // the date accessor is used on a column that is not datetime-typed
    | NotStringColumn(name: string)     // the string accessor is used on a column holding no strings
    | ReservedColumn(name: string)      // an input of the indicator join already has this column
    | DuplicateColumns                  // the suffixed output of a join repeats a column name

  datatype Result<+T> = Ok(value: T) | Err(error: Error) {
    predicate IsFailure() { Err? }
    function PropagateFailure<U>(): Result<U> requires Err? { Err(error) }
    function Extract(): T requires Ok? { value }
  }

  datatype Option<+T> = None | Some(value: T)

  predicate Distinct<T(==)>(s: seq<T>) {
    forall i, j :: 0 <= i < j < |s| ==> s[i] != s[j]
  }

  function ColumnSet(t: Table): set<string> {
    set c | c in t.columns
  }

  /** Column names are distinct and every row has a cell for every column and nothing else. */
  predicate WellFormed(t: Table) {
    && Distinct(t.columns)
    && forall i :: 0 <= i < |t.rows| ==> t.rows[i].Keys == ColumnSet(t)
  }

  /** The names of `cols` that are not in `names`, in their original order. */
  function Without(cols: seq<string>, names: set<string>): (r: seq<string>)
    ensures |r| <= |cols|
    ensures forall c :: c in r <==> c in cols && c !in names
  {
    if cols == [] then []
    else if cols[0] in names then Without(cols[1..], names)
    else [cols[0]] + Without(cols[1..], names)
  }

  lemma {:induction false} WithoutDistinct(cols: seq<string>, names: set<string>)
    requires Distinct(cols)
    ensures Distinct(Without(cols, names))
  {
    if cols != [] {
      assert Distinct(cols[1..]);
      WithoutDistinct(cols[1..], names);
    }
  }

  /** Filtering twice by the same names is filtering once. */
  lemma {:induction false} WithoutIdempotent(cols: seq<string>, names: set<string>)
    ensures Without(Without(cols, names), names) == Without(cols, names)
  {
    if cols != [] {
      WithoutIdempotent(cols[1..], names);
    }
  }

  /** Filtering distributes over concatenation, so kept names keep their relative order. */
  lemma {:induction false} WithoutConcat(a: seq<string>, b: seq<string>, names: set<string>)
    ensures Without(a + b, names) == Without(a, names) + Without(b, names)
  {
    if a != [] {
      assert (a + b)[1..] == a[1..] + b;
      WithoutConcat(a[1..], b, names);
    } else {
      assert a + b == b;
    }
  }

  /** DataFrame.drop(columns=names, errors='ignore'): the named columns that are
      present go, absent names are ignored, and it never fails. */
  function DropColumns(t: Table, names: set<string>): (r: Table)
    requires WellFormed(t)
    ensures WellFormed(r)
    ensures r.columns == Without(t.columns, names)
    ensures |r.rows| == |t.rows|
    ensures forall i :: 0 <= i < |t.rows| ==> r.rows[i] == t.rows[i] - names
  {
    WithoutDistinct(t.columns, names);
    Table(Without(t.columns, names), seq(|t.rows|, i requires 0 <= i < |t.rows| => t.rows[i] - names))
  }

  /** Exactly the present named columns are removed; every other column and every
      cell of every other column is kept. */
  lemma DropRemovesExactlyPresent(t: Table, names: set<string>)
    requires WellFormed(t)
    ensures ColumnSet(DropColumns(t, names)) == ColumnSet(t) - names
    ensures |ColumnSet(DropColumns(t, names))| == |ColumnSet(t)| - |ColumnSet(t) * names|
    ensures forall i, c :: 0 <= i < |t.rows| && c in t.columns && c !in names ==>
      c in DropColumns(t, names).rows[i] && DropColumns(t, names).rows[i][c] == t.rows[i][c]
  {
    var r := DropColumns(t, names);
    assert ColumnSet(t) == (ColumnSet(t) - names) + (ColumnSet(t) * names);
  }

  /** The tolerant drop is idempotent. */
  lemma DropIdempotent(t: Table, names: set<string>)
    requires WellFormed(t)
    ensures DropColumns(DropColumns(t, names), names) == DropColumns(t, names)
  {
    var once := DropColumns(t, names);
    var twice := DropColumns(once, names);
    WithoutIdempotent(t.columns, names);
    assert forall i :: 0 <= i < |twice.rows| ==> twice.rows[i] == once.rows[i];
  }

  /** df[name] = values: overwrite the column in place when it exists, otherwise
      append it as the last column. */
  function WithColumn(t: Table, name: string, values: seq<Value>): (r: Table)
    requires WellFormed(t) && |values| == |t.rows|
    ensures WellFormed(r)
    ensures |r.rows| == |t.rows|
    ensures ColumnSet(r) == ColumnSet(t) + {name}
    ensures name in t.columns ==> r.columns == t.columns
    ensures name !in t.columns ==> r.columns == t.columns + [name]
    ensures forall i :: 0 <= i < |r.rows| ==> name in r.rows[i] && r.rows[i][name] == values[i]
    ensures forall i, c :: 0 <= i < |r.rows| && c in t.rows[i] && c != name ==>
      c in r.rows[i] && r.rows[i][c] == t.rows[i][c]
  {
    var cols := if name in t.columns then t.columns else t.columns + [name];
    var r := Table(cols, seq(|t.rows|, i requires 0 <= i < |t.rows| => t.rows[i][name := values[i]]));
    assert ColumnSet(r) == ColumnSet(t) + {name};
    r
  }

  /** The cells of one column, top to bottom. */
  function Column(t: Table, name: string): (cells: seq<Value>)
    requires WellFormed(t) && name in t.columns
    ensures |cells| == |t.rows|
    ensures forall i :: 0 <= i < |t.rows| ==> cells[i] == t.rows[i][name]
  {
    seq(|t.rows|, i requires 0 <= i < |t.rows| => t.rows[i][name])
  }
}
