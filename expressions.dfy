/**
  Rows of the partitioned sensor dataset and the filter expressions that both
  revisions of the query engine hand to the dataset scanner, with the meaning
  a scan gives them: a row is kept exactly when the expression is true of it.
*/
module Expressions {
  import opened Timestamps

  /**
    One row of the dataset: its `Datetime`, the partition columns `plant_name`,
    `machine_no`, `year` and `month` (read from the directory path, not from
    the file), and the measurement channels, which no filter looks at.
  */
  datatype Row = Row(
    datetime: Timestamp,
    plantName: string,
    machineNo: string,
    year: int,
    month: int,
    channels: map<string, real>)

  /** The row sits in the year/month partition its own timestamp belongs to. */
  predicate PartitionConsistent(row: Row)
  {
    row.year == row.datetime.year && row.month == row.datetime.month
  }

  datatype IntColumn = Year | Month
  datatype StrColumn = PlantName | MachineNo
  datatype Comparison = Less | Equal | GreaterOrEqual | Greater | LessOrEqual

  /** The filter expressions built by the query engine. */
  datatype Expr =
    | Lit(truth: bool)
    | DatetimeAtLeast(lo: Timestamp)
    | DatetimeAtMost(hi: Timestamp)
    | IntCompare(intCol: IntColumn, op: Comparison, bound: int)
    | StrEquals(strCol: StrColumn, text: string)
    | And(left: Expr, right: Expr)
    | Or(left: Expr, right: Expr)

  function IntValue(col: IntColumn, row: Row): int
  {
    match col
    case Year => row.year
    case Month => row.month
  }

  function StrValue(col: StrColumn, row: Row): string
  {
    match col
    case PlantName => row.plantName
    case MachineNo => row.machineNo
  }

  predicate Compare(op: Comparison, x: int, y: int)
  {
    match op
    case Less => x < y
    case Equal => x == y
    case GreaterOrEqual => x >= y
    case Greater => x > y
    case LessOrEqual => x <= y
  }

  /** Whether the expression holds of the row. */
  predicate Eval(e: Expr, row: Row)
  {
    match e
    case Lit(b) => b
    case DatetimeAtLeast(t) => Le(t, row.datetime)
    case DatetimeAtMost(t) => Le(row.datetime, t)
    case IntCompare(col, op, k) => Compare(op, IntValue(col, row), k)
    case StrEquals(col, s) => StrValue(col, row) == s
    case And(l, r) => Eval(l, row) && Eval(r, row)
    case Or(l, r) => Eval(l, row) || Eval(r, row)
  }

  /**
    Scanning the dataset with a filter. `rows` is the dataset in the order the
    scanner yields it, and the scan keeps that order. Equalities of row
    sequences stated about the scan hold relative to that yield order, which
    neither revision fixes.
  */
  function FilterRows(rows: seq<Row>, cond: Expr): (kept: seq<Row>)
    ensures |kept| <= |rows|
    decreases |rows|
  {
    if rows == [] then []
    else (if Eval(cond, rows[0]) then [rows[0]] else []) + FilterRows(rows[1..], cond)
  }

  /**
    The scan is exact: every row for which the condition holds is returned as
    often as the dataset holds it, and no other row.
  */
  lemma {:induction false} FilterRowsExact(rows: seq<Row>, cond: Expr)
    ensures forall row :: multiset(FilterRows(rows, cond))[row] == if Eval(cond, row) then multiset(rows)[row] else 0
    ensures forall row :: row in FilterRows(rows, cond) <==> row in rows && Eval(cond, row)
    decreases |rows|
  {
    if rows != [] {
      FilterRowsExact(rows[1..], cond);
      assert rows == [rows[0]] + rows[1..];
      var head := if Eval(cond, rows[0]) then [rows[0]] else [];
      assert FilterRows(rows, cond) == head + FilterRows(rows[1..], cond);
      assert multiset(FilterRows(rows, cond)) == multiset(head) + multiset(FilterRows(rows[1..], cond));
    }
  }

  /** A condition that holds of every row keeps the whole dataset, in the order the scanner yields it. */
  lemma {:induction false} FilterKeepsAll(rows: seq<Row>, cond: Expr)
    requires forall row :: row in rows ==> Eval(cond, row)
    ensures FilterRows(rows, cond) == rows
    decreases |rows|
  {
    if rows != [] {
      FilterKeepsAll(rows[1..], cond);
      assert Eval(cond, rows[0]);
      assert FilterRows(rows, cond) == [rows[0]] + FilterRows(rows[1..], cond);
      assert rows == [rows[0]] + rows[1..];
    }
  }

  /** Scanning with two conditions that agree on every row gives the same result. */
  lemma {:induction false} FilterCongruent(rows: seq<Row>, c1: Expr, c2: Expr)
    requires forall row :: row in rows ==> (Eval(c1, row) <==> Eval(c2, row))
    ensures FilterRows(rows, c1) == FilterRows(rows, c2)
    decreases |rows|
  {
    if rows != [] {
      FilterCongruent(rows[1..], c1, c2);
      var head := if Eval(c1, rows[0]) then [rows[0]] else [];
      assert FilterRows(rows, c1) == head + FilterRows(rows[1..], c1);
      assert FilterRows(rows, c2) == head + FilterRows(rows[1..], c2);
    }
  }
}
