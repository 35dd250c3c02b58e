/** pd.merge(left, right, how="outer", left_on=lk, right_on=rk, indicator=True).
    The join is described by a plan: one Origin per output row, naming the
    left row, the right row, or both that the output row is built from. */
module OuterJoin {
  import opened Tables

  const IndicatorColumn := "_merge"
  const LeftIndicator := "_left_indicator"
  const RightIndicator := "_right_indicator"
  const BothTag := "both"
  const LeftOnlyTag := "left_only"
  const RightOnlyTag := "right_only"

  datatype Origin = Both(left: nat, right: nat) | LeftOnly(left: nat) | RightOnly(right: nat)

  /** Keys match when both are present, equal and not null. */
  predicate KeysMatch(l: Row, leftKey: string, r: Row, rightKey: string): (b: bool)
    ensures b ==> leftKey in l && rightKey in r && r[rightKey] != Null
  {
    leftKey in l && rightKey in r && l[leftKey] != Null && l[leftKey] == r[rightKey]
  }

  predicate LeftMatched(left: seq<Row>, leftKey: string, right: seq<Row>, rightKey: string, i: nat)
    requires i < |left|
  {
    exists j | 0 <= j < |right| :: KeysMatch(left[i], leftKey, right[j], rightKey)
  }

  predicate RightMatched(left: seq<Row>, leftKey: string, right: seq<Row>, rightKey: string, j: nat)
    requires j < |right|
  {
    exists i | 0 <= i < |left| :: KeysMatch(left[i], leftKey, right[j], rightKey)
  }

  lemma {:induction false} DistinctConcat<T>(a: seq<T>, b: seq<T>)
    requires Distinct(a) && Distinct(b)
    requires forall x :: x in a ==> x !in b
    ensures Distinct(a + b)
  {
    forall i, j | 0 <= i < j < |a + b| ensures (a + b)[i] != (a + b)[j] {
      if j < |a| {
        assert (a + b)[i] == a[i] && (a + b)[j] == a[j];
      } else if i >= |a| {
        assert (a + b)[i] == b[i - |a|] && (a + b)[j] == b[j - |a|];
      } else {
        assert (a + b)[i] == a[i] && (a + b)[j] == b[j - |a|];
        assert a[i] in a && b[j - |a|] in b;
      }
    }
  }

  /** A sequence without repeats has as many elements as its set. */
  lemma {:induction false} DistinctSize<T>(s: seq<T>)
    requires Distinct(s)
    ensures |set x | x in s| == |s|
  {
    if s != [] {
      assert Distinct(s[1..]);
      DistinctSize(s[1..]);
      assert (set x | x in s) == {s[0]} + (set x | x in s[1..]);
      assert s[0] !in (set x | x in s[1..]);
    }
  }

  /** The pairs of left row l (number i) with the right rows from j on, in right-row order. */
  function PairsOf(l: Row, i: nat, leftKey: string, right: seq<Row>, rightKey: string, j: nat): (ps: seq<Origin>)
    requires j <= |right|
    ensures forall o :: o in ps <==>
      o.Both? && o.left == i && j <= o.right < |right| && KeysMatch(l, leftKey, right[o.right], rightKey)
    ensures Distinct(ps)
    decreases |right| - j
  {
    if j == |right| then []
    else
      var rest := PairsOf(l, i, leftKey, right, rightKey, j + 1);
      var here := if KeysMatch(l, leftKey, right[j], rightKey) then [Both(i, j)] else [];
      DistinctConcat(here, rest);
      here + rest
  }

  /** The output rows contributed by the left rows from i on: each left row's
      matches, or the left row alone when it has none. */
  function LeftPlan(left: seq<Row>, leftKey: string, right: seq<Row>, rightKey: string, i: nat): (ps: seq<Origin>)
    requires i <= |left|
    ensures forall o :: o in ps <==>
      || (o.Both? && i <= o.left < |left| && o.right < |right| && KeysMatch(left[o.left], leftKey, right[o.right], rightKey))
      || (o.LeftOnly? && i <= o.left < |left| && !LeftMatched(left, leftKey, right, rightKey, o.left))
    ensures Distinct(ps)
    decreases |left| - i
  {
    if i == |left| then []
    else
      var pairs := PairsOf(left[i], i, leftKey, right, rightKey, 0);
      var rest := LeftPlan(left, leftKey, right, rightKey, i + 1);
      var here := if pairs == [] then [LeftOnly(i)] else pairs;
      assert pairs == [] <==> !LeftMatched(left, leftKey, right, rightKey, i) by {
        if LeftMatched(left, leftKey, right, rightKey, i) {
          var j :| 0 <= j < |right| && KeysMatch(left[i], leftKey, right[j], rightKey);
          assert Both(i, j) in pairs;
        }
        if pairs != [] {
          assert pairs[0] in pairs;
          var j := pairs[0].right;
          assert 0 <= j < |right| && KeysMatch(left[i], leftKey, right[j], rightKey);
        }
      }
      DistinctConcat(here, rest);
      here + rest
  }

  /** The right rows from j on that match no left row. */
  function RightPlan(left: seq<Row>, leftKey: string, right: seq<Row>, rightKey: string, j: nat): (ps: seq<Origin>)
    requires j <= |right|
    ensures forall o :: o in ps <==>
      o.RightOnly? && j <= o.right < |right| && !RightMatched(left, leftKey, right, rightKey, o.right)
    ensures Distinct(ps)
    decreases |right| - j
  {
    if j == |right| then []
    else
      var rest := RightPlan(left, leftKey, right, rightKey, j + 1);
      var here := if RightMatched(left, leftKey, right, rightKey, j) then [] else [RightOnly(j)];
      DistinctConcat(here, rest);
      here + rest
  }

  function Plan(left: seq<Row>, leftKey: string, right: seq<Row>, rightKey: string): (ps: seq<Origin>)
    ensures Distinct(ps)
  {
    var l := LeftPlan(left, leftKey, right, rightKey, 0);
    var r := RightPlan(left, leftKey, right, rightKey, 0);
    DistinctConcat(l, r);
    l + r
  }

  /** The three kinds of output row, as sets, defined directly from the inputs. */
  function MatchedPairs(left: seq<Row>, leftKey: string, right: seq<Row>, rightKey: string): set<Origin> {
    set i, j | 0 <= i < |left| && 0 <= j < |right| && KeysMatch(left[i], leftKey, right[j], rightKey) :: Both(i, j)
  }

  function UnmatchedLeft(left: seq<Row>, leftKey: string, right: seq<Row>, rightKey: string): set<Origin> {
    set i | 0 <= i < |left| && !LeftMatched(left, leftKey, right, rightKey, i) :: LeftOnly(i)
  }

  function UnmatchedRight(left: seq<Row>, leftKey: string, right: seq<Row>, rightKey: string): set<Origin> {
    set j | 0 <= j < |right| && !RightMatched(left, leftKey, right, rightKey, j) :: RightOnly(j)
  }

  /** The plan holds exactly every matching pair, every unmatched left row and
      every unmatched right row, each once. */
  lemma PlanContents(left: seq<Row>, leftKey: string, right: seq<Row>, rightKey: string)
    ensures (set o | o in Plan(left, leftKey, right, rightKey)) ==
      MatchedPairs(left, leftKey, right, rightKey)
      + UnmatchedLeft(left, leftKey, right, rightKey)
      + UnmatchedRight(left, leftKey, right, rightKey)
  {
    var p := Plan(left, leftKey, right, rightKey);
    var m := MatchedPairs(left, leftKey, right, rightKey);
    var ul := UnmatchedLeft(left, leftKey, right, rightKey);
    var ur := UnmatchedRight(left, leftKey, right, rightKey);
    forall o | o in m ensures o in p {
      var i, j :| 0 <= i < |left| && 0 <= j < |right| && KeysMatch(left[i], leftKey, right[j], rightKey) && o == Both(i, j);
    }
  }

  /** Output row count = matched pairs + unmatched left rows + unmatched right rows. */
  lemma PlanSize(left: seq<Row>, leftKey: string, right: seq<Row>, rightKey: string)
    ensures |Plan(left, leftKey, right, rightKey)| ==
      |MatchedPairs(left, leftKey, right, rightKey)|
      + |UnmatchedLeft(left, leftKey, right, rightKey)|
      + |UnmatchedRight(left, leftKey, right, rightKey)|
  {
    var p := Plan(left, leftKey, right, rightKey);
    var m := MatchedPairs(left, leftKey, right, rightKey);
    var ul := UnmatchedLeft(left, leftKey, right, rightKey);
    var ur := UnmatchedRight(left, leftKey, right, rightKey);
    DistinctSize(p);
    PlanContents(left, leftKey, right, rightKey);
    assert m !! ul && m !! ur && ul !! ur;
    assert |m + ul| == |m| + |ul|;
    assert |(m + ul) + ur| == |m + ul| + |ur|;
  }

  /** The left rows and the right rows that output rows are built from. */
  function LeftSources(p: seq<Origin>): set<nat> {
    set o | o in p && !o.RightOnly? :: o.left
  }

  function RightSources(p: seq<Origin>): set<nat> {
    set o | o in p && !o.LeftOnly? :: o.right
  }

  /** Every left row and every right row is the source of some output row, and
      output rows are built from input rows only. */
  lemma PlanCoversInputs(left: seq<Row>, leftKey: string, right: seq<Row>, rightKey: string)
    ensures forall i :: i in LeftSources(Plan(left, leftKey, right, rightKey)) <==> 0 <= i < |left|
    ensures forall j :: j in RightSources(Plan(left, leftKey, right, rightKey)) <==> 0 <= j < |right|
  {
    var p := Plan(left, leftKey, right, rightKey);
    forall i | 0 <= i < |left|
      ensures i in LeftSources(p)
    {
      if LeftMatched(left, leftKey, right, rightKey, i) {
        var j :| 0 <= j < |right| && KeysMatch(left[i], leftKey, right[j], rightKey);
        assert Both(i, j) in p;
      } else {
        assert LeftOnly(i) in p;
      }
    }
    forall j | 0 <= j < |right|
      ensures j in RightSources(p)
    {
      if RightMatched(left, leftKey, right, rightKey, j) {
        var i :| 0 <= i < |left| && KeysMatch(left[i], leftKey, right[j], rightKey);
        assert Both(i, j) in p;
      } else {
        assert RightOnly(j) in p;
      }
    }
  }

  /** Where an output column comes from. */
  datatype Side = LeftSide | RightSide | IndicatorSide
  datatype OutColumn = OutColumn(name: string, side: Side, source: string)

  /** Overlapping column names get the suffixes _x (left) and _y (right). */
  function Suffixed(c: string, other: seq<string>, suffix: string): string {
    if c in other then c + suffix else c
  }

  /** The output columns: the left columns, then the right columns, then the indicator. */
  function OutColumns(leftCols: seq<string>, rightCols: seq<string>): (outs: seq<OutColumn>)
    ensures |outs| == |leftCols| + |rightCols| + 1
    ensures forall k :: 0 <= k < |leftCols| ==> outs[k] == OutColumn(Suffixed(leftCols[k], rightCols, "_x"), LeftSide, leftCols[k])
    ensures forall k :: 0 <= k < |rightCols| ==>
      outs[|leftCols| + k] == OutColumn(Suffixed(rightCols[k], leftCols, "_y"), RightSide, rightCols[k])
    ensures outs[|outs| - 1] == OutColumn(IndicatorColumn, IndicatorSide, "")
  {
    seq(|leftCols|, k requires 0 <= k < |leftCols| => OutColumn(Suffixed(leftCols[k], rightCols, "_x"), LeftSide, leftCols[k]))
    + seq(|rightCols|, k requires 0 <= k < |rightCols| => OutColumn(Suffixed(rightCols[k], leftCols, "_y"), RightSide, rightCols[k]))
    + [OutColumn(IndicatorColumn, IndicatorSide, "")]
  }

  function Names(outs: seq<OutColumn>): (names: seq<string>)
    ensures |names| == |outs|
    ensures forall k :: 0 <= k < |outs| ==> names[k] == outs[k].name
  {
    seq(|outs|, k requires 0 <= k < |outs| => outs[k].name)
  }

  function Tag(o: Origin): string {
    match o
    case Both(_, _) => BothTag
    case LeftOnly(_) => LeftOnlyTag
    case RightOnly(_) => RightOnlyTag
  }

  predicate InRange(o: Origin, left: seq<Row>, right: seq<Row>) {
    (!o.RightOnly? ==> o.left < |left|) && (!o.LeftOnly? ==> o.right < |right|)
  }

  /** The cell of one output column in the output row built from o: the source
      row's cell, Null for the side the row does not come from. */
  function Cell(oc: OutColumn, o: Origin, left: seq<Row>, right: seq<Row>): Value
    requires InRange(o, left, right)
  {
    match oc.side
    case LeftSide =>
      if o.RightOnly? || oc.source !in left[o.left] then Null else left[o.left][oc.source]
    case RightSide =>
      if o.LeftOnly? || oc.source !in right[o.right] then Null else right[o.right][oc.source]
    case IndicatorSide => Text(Tag(o))
  }

  function OutRow(outs: seq<OutColumn>, o: Origin, left: seq<Row>, right: seq<Row>): (row: Row)
    requires Distinct(Names(outs)) && InRange(o, left, right)
    ensures row.Keys == set k | 0 <= k < |outs| :: outs[k].name
    ensures forall k :: 0 <= k < |outs| ==> row[outs[k].name] == Cell(outs[k], o, left, right)
  {
    map k | 0 <= k < |outs| :: outs[k].name := Cell(outs[k], o, left, right)
  }

  lemma PlanInRange(left: seq<Row>, leftKey: string, right: seq<Row>, rightKey: string)
    ensures forall o :: o in Plan(left, leftKey, right, rightKey) ==> InRange(o, left, right)
  {
  }

  /** indicator=True refuses inputs that already use one of its column names. */
  predicate UsesReserved(left: Table, right: Table) {
    || LeftIndicator in left.columns + right.columns
    || RightIndicator in left.columns + right.columns
    || IndicatorColumn in left.columns + right.columns
  }

  function JoinRows(outs: seq<OutColumn>, plan: seq<Origin>, left: seq<Row>, right: seq<Row>): (rows: seq<Row>)
    requires Distinct(Names(outs))
    requires forall o :: o in plan ==> InRange(o, left, right)
    ensures |rows| == |plan|
    ensures forall k :: 0 <= k < |plan| ==> rows[k] == OutRow(outs, plan[k], left, right)
  {
    seq(|plan|, k requires 0 <= k < |plan| => OutRow(outs, plan[k], left, right))
  }

  /** The join. Errors, in the order they are raised: a missing key column, an
      input column that the indicator reserves, and suffixed column names that collide. */
  function Join(left: Table, right: Table, leftKey: string, rightKey: string): (r: Result<Table>)
    requires WellFormed(left) && WellFormed(right)
    ensures r.Err? <==>
      || leftKey !in left.columns || rightKey !in right.columns
      || UsesReserved(left, right)
      || !Distinct(Names(OutColumns(left.columns, right.columns)))
    ensures r.Ok? ==> WellFormed(r.value)
    ensures r.Ok? ==> r.value.columns == Names(OutColumns(left.columns, right.columns))
    ensures r.Ok? ==> |r.value.rows| == |Plan(left.rows, leftKey, right.rows, rightKey)|
    ensures r.Ok? ==> forall k :: 0 <= k < |r.value.rows| ==>
      r.value.rows[k] == OutRow(OutColumns(left.columns, right.columns), Plan(left.rows, leftKey, right.rows, rightKey)[k], left.rows, right.rows)
  {
    var all := left.columns + right.columns;
    if leftKey !in left.columns then Err(MissingColumn(leftKey))
    else if rightKey !in right.columns then Err(MissingColumn(rightKey))
    else if LeftIndicator in all then Err(ReservedColumn(LeftIndicator))
    else if RightIndicator in all then Err(ReservedColumn(RightIndicator))
    else if IndicatorColumn in all then Err(ReservedColumn(IndicatorColumn))
    else
      var outs := OutColumns(left.columns, right.columns);
      if !Distinct(Names(outs)) then Err(DuplicateColumns)
      else
        var plan := Plan(left.rows, leftKey, right.rows, rightKey);
        PlanInRange(left.rows, leftKey, right.rows, rightKey);
        Ok(Assemble(outs, plan, left.rows, right.rows))
  }

  /** The output table: the output column names and one row per plan entry. */
  function Assemble(outs: seq<OutColumn>, plan: seq<Origin>, left: seq<Row>, right: seq<Row>): (t: Table)
    requires Distinct(Names(outs))
    requires forall o :: o in plan ==> InRange(o, left, right)
    ensures WellFormed(t)
    ensures t.columns == Names(outs)
    ensures |t.rows| == |plan|
    ensures forall k :: 0 <= k < |plan| ==> t.rows[k] == OutRow(outs, plan[k], left, right)
  {
    var t := Table(Names(outs), JoinRows(outs, plan, left, right));
    assert ColumnSet(t) == set k | 0 <= k < |outs| :: outs[k].name;
    t
  }

  /** The output row carries every cell of left row l under its output name. */
  predicate CarriesLeft(row: Row, outs: seq<OutColumn>, l: Row) {
    forall k :: 0 <= k < |outs| && outs[k].side == LeftSide ==>
      outs[k].name in row && outs[k].source in l && row[outs[k].name] == l[outs[k].source]
  }

  predicate CarriesRight(row: Row, outs: seq<OutColumn>, r: Row) {
    forall k :: 0 <= k < |outs| && outs[k].side == RightSide ==>
      outs[k].name in row && outs[k].source in r && row[outs[k].name] == r[outs[k].source]
  }

  /** Every output column of one side is Null in the row. */
  predicate NullSide(row: Row, outs: seq<OutColumn>, side: Side) {
    forall k :: 0 <= k < |outs| && outs[k].side == side ==> outs[k].name in row && row[outs[k].name] == Null
  }

  lemma OutRowCarries(left: Table, right: Table, o: Origin)
    requires WellFormed(left) && WellFormed(right)
    requires Distinct(Names(OutColumns(left.columns, right.columns)))
    requires InRange(o, left.rows, right.rows)
    ensures var outs := OutColumns(left.columns, right.columns);
      var row := OutRow(outs, o, left.rows, right.rows);
      && IndicatorColumn in row && row[IndicatorColumn] == Text(Tag(o))
      && (!o.RightOnly? ==> CarriesLeft(row, outs, left.rows[o.left]))
      && (o.RightOnly? ==> NullSide(row, outs, LeftSide))
      && (!o.LeftOnly? ==> CarriesRight(row, outs, right.rows[o.right]))
      && (o.LeftOnly? ==> NullSide(row, outs, RightSide))
  {
    var outs := OutColumns(left.columns, right.columns);
    assert outs[|outs| - 1].name == IndicatorColumn;
    OutRowLeftSide(left, right, o);
    OutRowRightSide(left, right, o);
  }

  /** Which side each output column comes from, by position. */
  lemma SideAt(leftCols: seq<string>, rightCols: seq<string>, k: nat)
    requires k < |leftCols| + |rightCols| + 1
    ensures OutColumns(leftCols, rightCols)[k].side ==
      if k < |leftCols| then LeftSide else if k < |leftCols| + |rightCols| then RightSide else IndicatorSide
  {
  }

  /** The cell of output column k when k is a left column. */
  lemma LeftCellAt(left: Table, right: Table, o: Origin, k: nat)
    requires WellFormed(left) && WellFormed(right)
    requires Distinct(Names(OutColumns(left.columns, right.columns)))
    requires InRange(o, left.rows, right.rows)
    requires k < |left.columns|
    ensures var outs := OutColumns(left.columns, right.columns);
      var row := OutRow(outs, o, left.rows, right.rows);
      && outs[k].name in row
      && (!o.RightOnly? ==> outs[k].source in left.rows[o.left] && row[outs[k].name] == left.rows[o.left][outs[k].source])
      && (o.RightOnly? ==> row[outs[k].name] == Null)
  {
    var outs := OutColumns(left.columns, right.columns);
    LeftOutAt(left.columns, right.columns, k);
    CellAt(outs, o, left.rows, right.rows, k);
    if !o.RightOnly? {
      RowHasColumn(left, o.left, left.columns[k]);
    }
  }

  /** The cell of output column k when k is a right column. */
  lemma RightCellAt(left: Table, right: Table, o: Origin, k: nat)
    requires WellFormed(left) && WellFormed(right)
    requires Distinct(Names(OutColumns(left.columns, right.columns)))
    requires InRange(o, left.rows, right.rows)
    requires |left.columns| <= k < |left.columns| + |right.columns|
    ensures var outs := OutColumns(left.columns, right.columns);
      var row := OutRow(outs, o, left.rows, right.rows);
      && outs[k].name in row
      && (!o.LeftOnly? ==> outs[k].source in right.rows[o.right] && row[outs[k].name] == right.rows[o.right][outs[k].source])
      && (o.LeftOnly? ==> row[outs[k].name] == Null)
  {
    var outs := OutColumns(left.columns, right.columns);
    var b := k - |left.columns|;
    assert |left.columns| + b == k;
    RightOutAt(left.columns, right.columns, b);
    CellAt(outs, o, left.rows, right.rows, k);
    if !o.LeftOnly? {
      RowHasColumn(right, o.right, right.columns[b]);
    }
  }

  lemma OutRowLeftSide(left: Table, right: Table, o: Origin)
    requires WellFormed(left) && WellFormed(right)
    requires Distinct(Names(OutColumns(left.columns, right.columns)))
    requires InRange(o, left.rows, right.rows)
    ensures var outs := OutColumns(left.columns, right.columns);
      var row := OutRow(outs, o, left.rows, right.rows);
      && (!o.RightOnly? ==> CarriesLeft(row, outs, left.rows[o.left]))
      && (o.RightOnly? ==> NullSide(row, outs, LeftSide))
  {
    var outs := OutColumns(left.columns, right.columns);
    var row := OutRow(outs, o, left.rows, right.rows);
    forall k | 0 <= k < |outs| && outs[k].side == LeftSide
      ensures outs[k].name in row
      ensures !o.RightOnly? ==> outs[k].source in left.rows[o.left] && row[outs[k].name] == left.rows[o.left][outs[k].source]
      ensures o.RightOnly? ==> row[outs[k].name] == Null
    {
      SideAt(left.columns, right.columns, k);
      LeftCellAt(left, right, o, k);
    }
  }

  lemma OutRowRightSide(left: Table, right: Table, o: Origin)
    requires WellFormed(left) && WellFormed(right)
    requires Distinct(Names(OutColumns(left.columns, right.columns)))
    requires InRange(o, left.rows, right.rows)
    ensures var outs := OutColumns(left.columns, right.columns);
      var row := OutRow(outs, o, left.rows, right.rows);
      && (!o.LeftOnly? ==> CarriesRight(row, outs, right.rows[o.right]))
      && (o.LeftOnly? ==> NullSide(row, outs, RightSide))
  {
    var outs := OutColumns(left.columns, right.columns);
    var row := OutRow(outs, o, left.rows, right.rows);
    forall k | 0 <= k < |outs| && outs[k].side == RightSide
      ensures outs[k].name in row
      ensures !o.LeftOnly? ==> outs[k].source in right.rows[o.right] && row[outs[k].name] == right.rows[o.right][outs[k].source]
      ensures o.LeftOnly? ==> row[outs[k].name] == Null
    {
      SideAt(left.columns, right.columns, k);
      RightCellAt(left, right, o, k);
    }
  }

  /** What the indicator of an output row says about where the row comes from:
      `both` rows pair a left and a right row whose keys match and carry both,
      `left_only` rows carry a left row that matches nothing and are Null on
      the right, and `right_only` rows are the converse. */
  predicate IndicatorSays(row: Row, left: seq<Row>, leftKey: string, right: seq<Row>, rightKey: string, outs: seq<OutColumn>)
    requires IndicatorColumn in row
  {
    && (row[IndicatorColumn] == Text(BothTag) ==>
          exists i, j :: 0 <= i < |left| && 0 <= j < |right|
            && KeysMatch(left[i], leftKey, right[j], rightKey)
            && CarriesLeft(row, outs, left[i]) && CarriesRight(row, outs, right[j]))
    && (row[IndicatorColumn] == Text(LeftOnlyTag) ==>
          exists i :: 0 <= i < |left| && !LeftMatched(left, leftKey, right, rightKey, i)
            && CarriesLeft(row, outs, left[i]) && NullSide(row, outs, RightSide))
    && (row[IndicatorColumn] == Text(RightOnlyTag) ==>
          exists j :: 0 <= j < |right| && !RightMatched(left, leftKey, right, rightKey, j)
            && CarriesRight(row, outs, right[j]) && NullSide(row, outs, LeftSide))
  }

  /** What each output row of the join is, by its indicator: `both` rows pair a
      left and a right row whose keys match, `left_only` rows carry a left row
      that matches nothing and Null on the right, and `right_only` the converse. */
  lemma JoinIndicator(left: Table, right: Table, leftKey: string, rightKey: string, k: nat)
    requires WellFormed(left) && WellFormed(right)
    requires Join(left, right, leftKey, rightKey).Ok?
    requires k < |Join(left, right, leftKey, rightKey).value.rows|
    ensures var row := Join(left, right, leftKey, rightKey).value.rows[k];
      && IndicatorColumn in row
      && row[IndicatorColumn] in {Text(BothTag), Text(LeftOnlyTag), Text(RightOnlyTag)}
      && IndicatorSays(row, left.rows, leftKey, right.rows, rightKey, OutColumns(left.columns, right.columns))
  {
    var plan := Plan(left.rows, leftKey, right.rows, rightKey);
    var outs := OutColumns(left.columns, right.columns);
    var o := plan[k];
    var row := Join(left, right, leftKey, rightKey).value.rows[k];
    assert row == OutRow(outs, o, left.rows, right.rows);
    assert o in plan;
    PlanInRange(left.rows, leftKey, right.rows, rightKey);
    OutRowCarries(left, right, o);
    TagsDistinct();
    match o
    case Both(i, j) =>
      assert KeysMatch(left.rows[i], leftKey, right.rows[j], rightKey);
      assert CarriesLeft(row, outs, left.rows[i]) && CarriesRight(row, outs, right.rows[j]);
    case LeftOnly(i) =>
      assert !LeftMatched(left.rows, leftKey, right.rows, rightKey, i);
      assert CarriesLeft(row, outs, left.rows[i]) && NullSide(row, outs, RightSide);
    case RightOnly(j) =>
      assert !RightMatched(left.rows, leftKey, right.rows, rightKey, j);
      assert CarriesRight(row, outs, right.rows[j]) && NullSide(row, outs, LeftSide);
  }

  /** The three indicator tags are different strings. */
  lemma TagsDistinct()
    ensures BothTag != LeftOnlyTag && BothTag != RightOnlyTag && LeftOnlyTag != RightOnlyTag
  {
    assert BothTag[0] == 'b' && LeftOnlyTag[0] == 'l' && RightOnlyTag[0] == 'r';
  }

  /** The name the join gives to the left key column and to the right key column. */
  function LeftKeyOut(left: Table, right: Table, leftKey: string): string {
    Suffixed(leftKey, right.columns, "_x")
  }

  function RightKeyOut(left: Table, right: Table, rightKey: string): string {
    Suffixed(rightKey, left.columns, "_y")
  }

  lemma LeftOutAt(leftCols: seq<string>, rightCols: seq<string>, a: nat)
    requires a < |leftCols|
    ensures OutColumns(leftCols, rightCols)[a] == OutColumn(Suffixed(leftCols[a], rightCols, "_x"), LeftSide, leftCols[a])
  {
  }

  lemma RightOutAt(leftCols: seq<string>, rightCols: seq<string>, b: nat)
    requires b < |rightCols|
    ensures OutColumns(leftCols, rightCols)[|leftCols| + b] == OutColumn(Suffixed(rightCols[b], leftCols, "_y"), RightSide, rightCols[b])
  {
  }

  lemma IndexOf(s: seq<string>, x: string) returns (i: nat)
    requires x in s
    ensures i < |s| && s[i] == x
  {
    i :| 0 <= i < |s| && s[i] == x;
  }

  lemma CellAt(outs: seq<OutColumn>, o: Origin, left: seq<Row>, right: seq<Row>, k: nat)
    requires Distinct(Names(outs)) && InRange(o, left, right) && k < |outs|
    ensures outs[k].name in OutRow(outs, o, left, right)
    ensures OutRow(outs, o, left, right)[outs[k].name] == Cell(outs[k], o, left, right)
  {
  }

  lemma RowHasColumn(t: Table, i: nat, c: string)
    requires WellFormed(t) && i < |t.rows| && c in t.columns
    ensures c in t.rows[i]
  {
  }

  /** The left key cell of the output row built from o. */
  lemma OutRowLeftKey(left: Table, right: Table, leftKey: string, o: Origin)
    requires WellFormed(left) && WellFormed(right)
    requires leftKey in left.columns
    requires Distinct(Names(OutColumns(left.columns, right.columns)))
    requires InRange(o, left.rows, right.rows)
    ensures var row := OutRow(OutColumns(left.columns, right.columns), o, left.rows, right.rows);
      && LeftKeyOut(left, right, leftKey) in row
      && row[LeftKeyOut(left, right, leftKey)] == (if o.RightOnly? then Null else left.rows[o.left][leftKey])
  {
    var a := IndexOf(left.columns, leftKey);
    LeftOutAt(left.columns, right.columns, a);
    CellAt(OutColumns(left.columns, right.columns), o, left.rows, right.rows, a);
    if !o.RightOnly? {
      RowHasColumn(left, o.left, leftKey);
    }
  }

  /** The right key cell of the output row built from o. */
  lemma OutRowRightKey(left: Table, right: Table, rightKey: string, o: Origin)
    requires WellFormed(left) && WellFormed(right)
    requires rightKey in right.columns
    requires Distinct(Names(OutColumns(left.columns, right.columns)))
    requires InRange(o, left.rows, right.rows)
    ensures var row := OutRow(OutColumns(left.columns, right.columns), o, left.rows, right.rows);
      && RightKeyOut(left, right, rightKey) in row
      && row[RightKeyOut(left, right, rightKey)] == (if o.LeftOnly? then Null else right.rows[o.right][rightKey])
  {
    var b := IndexOf(right.columns, rightKey);
    RightOutAt(left.columns, right.columns, b);
    CellAt(OutColumns(left.columns, right.columns), o, left.rows, right.rows, |left.columns| + b);
    if !o.LeftOnly? {
      RowHasColumn(right, o.right, rightKey);
    }
  }

  /** An output row is `both` exactly when its two key cells hold the same non-null value. */
  lemma JoinBothIffKeysEqual(left: Table, right: Table, leftKey: string, rightKey: string, k: nat)
    requires WellFormed(left) && WellFormed(right)
    requires Join(left, right, leftKey, rightKey).Ok?
    requires k < |Join(left, right, leftKey, rightKey).value.rows|
    ensures var row := Join(left, right, leftKey, rightKey).value.rows[k];
      && LeftKeyOut(left, right, leftKey) in row && RightKeyOut(left, right, rightKey) in row
      && (row[IndicatorColumn] == Text(BothTag) <==>
           row[LeftKeyOut(left, right, leftKey)] != Null
           && row[LeftKeyOut(left, right, leftKey)] == row[RightKeyOut(left, right, rightKey)])
  {
    var outs := OutColumns(left.columns, right.columns);
    var plan := Plan(left.rows, leftKey, right.rows, rightKey);
    var row := Join(left, right, leftKey, rightKey).value.rows[k];
    var o := plan[k];
    assert row == OutRow(outs, o, left.rows, right.rows);
    assert o in plan;
    PlanInRange(left.rows, leftKey, right.rows, rightKey);
    OutRowCarries(left, right, o);
    OutRowLeftKey(left, right, leftKey, o);
    OutRowRightKey(left, right, rightKey, o);
    if o.Both? {
      assert KeysMatch(left.rows[o.left], leftKey, right.rows[o.right], rightKey);
    }
  }

  /** Left row i is carried by some output row. */
  lemma PlanCarriesLeft(left: Table, right: Table, leftKey: string, rightKey: string, i: nat) returns (k: nat)
    requires WellFormed(left) && WellFormed(right)
    requires Distinct(Names(OutColumns(left.columns, right.columns)))
    requires i < |left.rows|
    ensures k < |Plan(left.rows, leftKey, right.rows, rightKey)|
    ensures CarriesLeft(OutRow(OutColumns(left.columns, right.columns), Plan(left.rows, leftKey, right.rows, rightKey)[k], left.rows, right.rows),
                        OutColumns(left.columns, right.columns), left.rows[i])
  {
    var plan := Plan(left.rows, leftKey, right.rows, rightKey);
    PlanCoversInputs(left.rows, leftKey, right.rows, rightKey);
    PlanInRange(left.rows, leftKey, right.rows, rightKey);
    assert i in LeftSources(plan);
    var o :| o in plan && !o.RightOnly? && o.left == i;
    k :| 0 <= k < |plan| && plan[k] == o;
    OutRowCarries(left, right, o);
  }

  /** Right row j is carried by some output row. */
  lemma PlanCarriesRight(left: Table, right: Table, leftKey: string, rightKey: string, j: nat) returns (k: nat)
    requires WellFormed(left) && WellFormed(right)
    requires Distinct(Names(OutColumns(left.columns, right.columns)))
    requires j < |right.rows|
    ensures k < |Plan(left.rows, leftKey, right.rows, rightKey)|
    ensures CarriesRight(OutRow(OutColumns(left.columns, right.columns), Plan(left.rows, leftKey, right.rows, rightKey)[k], left.rows, right.rows),
                         OutColumns(left.columns, right.columns), right.rows[j])
  {
    var plan := Plan(left.rows, leftKey, right.rows, rightKey);
    PlanCoversInputs(left.rows, leftKey, right.rows, rightKey);
    PlanInRange(left.rows, leftKey, right.rows, rightKey);
    assert j in RightSources(plan);
    var o :| o in plan && !o.LeftOnly? && o.right == j;
    k :| 0 <= k < |plan| && plan[k] == o;
    OutRowCarries(left, right, o);
  }

  /** Every left row and every right row reaches the output: some output row carries it. */
  lemma JoinKeepsEveryRow(left: Table, right: Table, leftKey: string, rightKey: string)
    requires WellFormed(left) && WellFormed(right)
    requires Join(left, right, leftKey, rightKey).Ok?
    ensures var rows := Join(left, right, leftKey, rightKey).value.rows;
      var outs := OutColumns(left.columns, right.columns);
      && (forall i :: 0 <= i < |left.rows| ==> exists k :: 0 <= k < |rows| && CarriesLeft(rows[k], outs, left.rows[i]))
      && (forall j :: 0 <= j < |right.rows| ==> exists k :: 0 <= k < |rows| && CarriesRight(rows[k], outs, right.rows[j]))
  {
    var rows := Join(left, right, leftKey, rightKey).value.rows;
    var outs := OutColumns(left.columns, right.columns);
    forall i | 0 <= i < |left.rows|
      ensures exists k :: 0 <= k < |rows| && CarriesLeft(rows[k], outs, left.rows[i])
    {
      var k := PlanCarriesLeft(left, right, leftKey, rightKey, i);
      assert CarriesLeft(rows[k], outs, left.rows[i]);
    }
    forall j | 0 <= j < |right.rows|
      ensures exists k :: 0 <= k < |rows| && CarriesRight(rows[k], outs, right.rows[j])
    {
      var k := PlanCarriesRight(left, right, leftKey, rightKey, j);
      assert CarriesRight(rows[k], outs, right.rows[j]);
    }
  }

  /** Output row count = matched pairs + unmatched left rows + unmatched right rows. */
  lemma JoinRowCount(left: Table, right: Table, leftKey: string, rightKey: string)
    requires WellFormed(left) && WellFormed(right)
    requires Join(left, right, leftKey, rightKey).Ok?
    ensures |Join(left, right, leftKey, rightKey).value.rows| ==
      |MatchedPairs(left.rows, leftKey, right.rows, rightKey)|
      + |UnmatchedLeft(left.rows, leftKey, right.rows, rightKey)|
      + |UnmatchedRight(left.rows, leftKey, right.rows, rightKey)|
  {
    PlanSize(left.rows, leftKey, right.rows, rightKey);
  }

  /** Without overlapping names no suffix is added: the output columns are the
      left columns, the right columns and the indicator, all distinct. */
  lemma DisjointColumnsKeepNames(leftCols: seq<string>, rightCols: seq<string>)
    requires Distinct(leftCols) && Distinct(rightCols)
    requires forall c :: c in leftCols ==> c !in rightCols
    requires IndicatorColumn !in leftCols && IndicatorColumn !in rightCols
    ensures Names(OutColumns(leftCols, rightCols)) == leftCols + rightCols + [IndicatorColumn]
    ensures Distinct(Names(OutColumns(leftCols, rightCols)))
  {
    var outs := OutColumns(leftCols, rightCols);
    var names := Names(outs);
    var all := leftCols + rightCols + [IndicatorColumn];
    forall k | 0 <= k < |names| ensures names[k] == all[k] {
      if k < |leftCols| {
        assert leftCols[k] in leftCols;
      } else if k < |leftCols| + |rightCols| {
        assert rightCols[k - |leftCols|] in rightCols;
      }
    }
    assert names == all;
    forall a, b | 0 <= a < b < |all| ensures all[a] != all[b] {
      if b < |leftCols| {
      } else if a < |leftCols| && b < |leftCols| + |rightCols| {
        assert all[a] in leftCols;
        assert all[b] == rightCols[b - |leftCols|];
      } else if a >= |leftCols| && b < |leftCols| + |rightCols| {
        assert all[a] == rightCols[a - |leftCols|] && all[b] == rightCols[b - |leftCols|];
      } else if a < |leftCols| {
        assert all[a] in leftCols;
      } else {
        assert all[a] in rightCols;
      }
    }
  }

  /** One left row and one right row whose keys match join into a single
      `both` row built from the two. */
  lemma JoinSingleMatch(left: Table, right: Table, leftKey: string, rightKey: string)
    requires WellFormed(left) && WellFormed(right)
    requires Join(left, right, leftKey, rightKey).Ok?
    requires |left.rows| == 1 && |right.rows| == 1
    requires KeysMatch(left.rows[0], leftKey, right.rows[0], rightKey)
    ensures |Join(left, right, leftKey, rightKey).value.rows| == 1
    ensures Join(left, right, leftKey, rightKey).value.rows[0] ==
      OutRow(OutColumns(left.columns, right.columns), Both(0, 0), left.rows, right.rows)
  {
    var m := MatchedPairs(left.rows, leftKey, right.rows, rightKey);
    var ul := UnmatchedLeft(left.rows, leftKey, right.rows, rightKey);
    var ur := UnmatchedRight(left.rows, leftKey, right.rows, rightKey);
    assert m == {Both(0, 0)};
    assert LeftMatched(left.rows, leftKey, right.rows, rightKey, 0);
    assert RightMatched(left.rows, leftKey, right.rows, rightKey, 0);
    assert ul == {};
    assert ur == {};
    var p := Plan(left.rows, leftKey, right.rows, rightKey);
    PlanSize(left.rows, leftKey, right.rows, rightKey);
    PlanContents(left.rows, leftKey, right.rows, rightKey);
    assert p[0] in (set o | o in p);
  }
}
