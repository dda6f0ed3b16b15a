/**
  The second revision of the range query, `load_dataset`, over one plant's
  dataset partitioned as `machine_no/year/month`: optional machine filter,
  optional start and end bounds each guarded by a year/month partition-pruning
  conjunct, and an optional column projection that always asks for
  `Datetime` and reports the requested columns that do not exist.
*/
module DatasetLoader {
  import opened Wrappers
  import opened Timestamps
  import opened Expressions

  const DatetimeColumn: string := "Datetime"

  /** Python truthiness of an optional bound: `None` and the empty string are off; a datetime is always on. */
  predicate BoundGiven(arg: Option<TimeArg>)
  {
    arg.Some? && (arg.value.Text? ==> arg.value.text != "")
  }

  /** The bound a query applies, once normalised: none, a timestamp, or the parse error. */
  function Bound(arg: Option<TimeArg>, parse: string -> Option<Timestamp>): (r: Result<Option<Timestamp>, ParseError>)
    ensures !BoundGiven(arg) ==> r == Success(None)
    ensures BoundGiven(arg) && r.Success? ==> r.value.Some? && ToDatetime(arg.value, parse) == Success(r.value.value)
    ensures BoundGiven(arg) && r.Failure? ==> ToDatetime(arg.value, parse) == Failure(r.error)
    ensures arg.Some? && arg.value.Stamp? ==> r == Success(Some(arg.value.stamp))
  {
    if !BoundGiven(arg) then Success(None)
    else
      match ToDatetime(arg.value, parse)
      case Success(t) => Success(Some(t))
      case Failure(e) => Failure(e)
  }

  /** The partition-level start condition on a row's `year` and `month`. */
  predicate StartPrune(year: int, month: int, sdt: Timestamp)
  {
    year > sdt.year - 1 && (year > sdt.year || (year == sdt.year && month >= sdt.month))
  }

  /** The partition-level end condition on a row's `year` and `month`. */
  predicate EndPrune(year: int, month: int, edt: Timestamp)
  {
    year < edt.year + 1 && (year < edt.year || (year == edt.year && month <= edt.month))
  }

  /** The start's pruning conjunct as a scan expression; it denotes `StartPrune`. */
  function StartPruneExpr(sdt: Timestamp): (e: Expr)
    ensures forall row :: Eval(e, row) <==> StartPrune(row.year, row.month, sdt)
  {
    var sameYear := And(IntCompare(Year, Equal, sdt.year), IntCompare(Month, GreaterOrEqual, sdt.month));
    var later := Or(IntCompare(Year, Greater, sdt.year), sameYear);
    assert forall row :: Eval(sameYear, row) <==> row.year == sdt.year && row.month >= sdt.month;
    assert forall row :: Eval(later, row) <==> row.year > sdt.year || (row.year == sdt.year && row.month >= sdt.month);
    And(IntCompare(Year, Greater, sdt.year - 1), later)
  }

  /** The end's pruning conjunct as a scan expression; it denotes `EndPrune`. */
  function EndPruneExpr(edt: Timestamp): (e: Expr)
    ensures forall row :: Eval(e, row) <==> EndPrune(row.year, row.month, edt)
  {
    var sameYear := And(IntCompare(Year, Equal, edt.year), IntCompare(Month, LessOrEqual, edt.month));
    var earlier := Or(IntCompare(Year, Less, edt.year), sameYear);
    assert forall row :: Eval(sameYear, row) <==> row.year == edt.year && row.month <= edt.month;
    assert forall row :: Eval(earlier, row) <==> row.year < edt.year || (row.year == edt.year && row.month <= edt.month);
    And(IntCompare(Year, Less, edt.year + 1), earlier)
  }

  /** What the built condition keeps: the machine filter and, per bound, its pruning conjunct and its `Datetime` comparison. */
  predicate Kept(row: Row, machineNo: string, sdt: Option<Timestamp>, edt: Option<Timestamp>)
  {
    && (machineNo != "" ==> row.machineNo == machineNo)
    && (sdt.Some? ==> StartPrune(row.year, row.month, sdt.value) && Le(sdt.value, row.datetime))
    && (edt.Some? ==> EndPrune(row.year, row.month, edt.value) && Le(row.datetime, edt.value))
  }

  /** The query's meaning without pruning: the machine filter and the inclusive `Datetime` bounds. */
  predicate InRange(row: Row, machineNo: string, sdt: Option<Timestamp>, edt: Option<Timestamp>)
  {
    && (machineNo != "" ==> row.machineNo == machineNo)
    && (sdt.Some? ==> Le(sdt.value, row.datetime))
    && (edt.Some? ==> Le(row.datetime, edt.value))
  }

  /**
    Builds the scan condition step by step from the constant `True`: a machine
    equality when a machine is given, then for a given start its pruning
    conjunct and `Datetime >= start`, then for a given end its pruning
    conjunct and `Datetime <= end`. A bound that does not parse is an error,
    the start checked first.
  */
  method BuildCondition(machineNo: string, start: Option<TimeArg>, end: Option<TimeArg>, parse: string -> Option<Timestamp>)
    returns (res: Result<Expr, ParseError>)
    ensures var sb, eb := Bound(start, parse), Bound(end, parse);
      && (res.Failure? <==> sb.Failure? || eb.Failure?)
      && (sb.Failure? ==> res == Failure(sb.error))
      && (sb.Success? && eb.Failure? ==> res == Failure(eb.error))
      && (res.Success? ==> forall row :: Eval(res.value, row) <==> Kept(row, machineNo, sb.value, eb.value))
    ensures machineNo == "" && !BoundGiven(start) && !BoundGiven(end) ==> res == Success(Lit(true))
  {
    var cond := Lit(true);
    if machineNo != "" {
      cond := And(cond, StrEquals(MachineNo, machineNo));
    }
    ghost var afterMachine := cond;
    assert forall row :: Eval(afterMachine, row) <==> (machineNo != "" ==> row.machineNo == machineNo);
    var sdt: Option<Timestamp> := None;
    if BoundGiven(start) {
      var t := ToDatetime(start.value, parse);
      if t.Failure? {
        return Failure(t.error);
      }
      sdt := Some(t.value);
      cond := And(cond, StartPruneExpr(t.value));
      cond := And(cond, DatetimeAtLeast(t.value));
    }
    assert sdt == Bound(start, parse).value;
    ghost var afterStart := cond;
    assert forall row :: Eval(afterStart, row) <==>
      Eval(afterMachine, row) && (sdt.Some? ==> StartPrune(row.year, row.month, sdt.value) && Le(sdt.value, row.datetime));
    var edt: Option<Timestamp> := None;
    if BoundGiven(end) {
      var t := ToDatetime(end.value, parse);
      if t.Failure? {
        return Failure(t.error);
      }
      edt := Some(t.value);
      cond := And(cond, EndPruneExpr(t.value));
      cond := And(cond, DatetimeAtMost(t.value));
    }
    assert edt == Bound(end, parse).value;
    assert forall row :: Eval(cond, row) <==>
      Eval(afterStart, row) && (edt.Some? ==> EndPrune(row.year, row.month, edt.value) && Le(row.datetime, edt.value));
    res := Success(cond);
  }

  /**
    Pruning soundness, start side: a row stored under the year and month of its
    own `Datetime` that is not before the start passes the start's pruning
    conjunct.
  */
  lemma StartPruneSound(row: Row, sdt: Timestamp)
    requires PartitionConsistent(row)
    requires Le(sdt, row.datetime)
    ensures StartPrune(row.year, row.month, sdt)
  {
    LeYearMonth(sdt, row.datetime);
  }

  /** Pruning soundness, end side. */
  lemma EndPruneSound(row: Row, edt: Timestamp)
    requires PartitionConsistent(row)
    requires Le(row.datetime, edt)
    ensures EndPrune(row.year, row.month, edt)
  {
    LeYearMonth(row.datetime, edt);
  }

  /** On consistently partitioned rows, pruning neither drops nor admits a row: the built condition means `InRange`. */
  lemma PruningExact(row: Row, machineNo: string, sdt: Option<Timestamp>, edt: Option<Timestamp>)
    requires PartitionConsistent(row)
    ensures Kept(row, machineNo, sdt, edt) <==> InRange(row, machineNo, sdt, edt)
  {
    if InRange(row, machineNo, sdt, edt) {
      if sdt.Some? {
        StartPruneSound(row, sdt.value);
      }
      if edt.Some? {
        EndPruneSound(row, edt.value);
      }
    }
  }

  /** The pruning conjuncts only matter for rows stored under another partition: one such row is dropped although its `Datetime` is in range. */
  lemma PruningNeedsConsistentPartitions(row: Row, sdt: Timestamp)
    requires row.datetime == sdt && row.year == sdt.year - 1
    ensures InRange(row, "", Some(sdt), None) && !Kept(row, "", Some(sdt), None)
  {
    LeReflexive(sdt);
  }

  /** The leading `year > start.year - 1` term is implied by the disjunction after it. */
  lemma StartPruneLeadingTermRedundant(year: int, month: int, sdt: Timestamp)
    ensures StartPrune(year, month, sdt) <==> (year > sdt.year || (year == sdt.year && month >= sdt.month))
  {
  }

  /** The leading `year < end.year + 1` term is implied by the disjunction after it. */
  lemma EndPruneLeadingTermRedundant(year: int, month: int, edt: Timestamp)
    ensures EndPrune(year, month, edt) <==> (year < edt.year || (year == edt.year && month <= edt.month))
  {
  }

  /** The columns of a request that exist in the dataset, in request order. */
  function KeptColumns(requested: seq<string>, existing: seq<string>): (kept: seq<string>)
    ensures |kept| <= |requested|
    decreases |requested|
  {
    if requested == [] then []
    else (if requested[0] in existing then [requested[0]] else []) + KeptColumns(requested[1..], existing)
  }

  /**
    The projection holds each existing requested column exactly as often as it
    was requested, and nothing else.
  */
  lemma {:induction false} KeptColumnsExact(requested: seq<string>, existing: seq<string>)
    ensures forall c ::
              multiset(KeptColumns(requested, existing))[c] ==
                (if c in existing then multiset(requested)[c] else 0)
    ensures forall c :: c in KeptColumns(requested, existing) <==> c in requested && c in existing
    decreases |requested|
  {
    if requested != [] {
      KeptColumnsExact(requested[1..], existing);
      assert requested == [requested[0]] + requested[1..];
      var head := if requested[0] in existing then [requested[0]] else [];
      assert KeptColumns(requested, existing) == head + KeptColumns(requested[1..], existing);
      assert multiset(KeptColumns(requested, existing)) ==
        multiset(head) + multiset(KeptColumns(requested[1..], existing));
    }
  }

  /** Keeping columns commutes with concatenating requests: the request order is preserved. */
  lemma {:induction false} KeptColumnsAppend(a: seq<string>, b: seq<string>, existing: seq<string>)
    ensures KeptColumns(a + b, existing) == KeptColumns(a, existing) + KeptColumns(b, existing)
    decreases |a|
  {
    if a == [] {
      assert a + b == b;
    } else {
      var head := if a[0] in existing then [a[0]] else [];
      assert (a + b)[0] == a[0];
      assert (a + b)[1..] == a[1..] + b;
      KeptColumnsAppend(a[1..], b, existing);
      calc {
        KeptColumns(a + b, existing);
        head + KeptColumns((a + b)[1..], existing);
        head + KeptColumns(a[1..] + b, existing);
        head + (KeptColumns(a[1..], existing) + KeptColumns(b, existing));
        (head + KeptColumns(a[1..], existing)) + KeptColumns(b, existing);
        KeptColumns(a, existing) + KeptColumns(b, existing);
      }
    }
  }

  /** The requested column names that do not exist in the dataset. */
  function MissingColumns(requested: seq<string>, existing: seq<string>): (missing: set<string>)
    ensures missing <= set c | c in requested
    ensures missing !! set c | c in existing
  {
    set c | c in requested && c !in existing
  }

  /** Every distinct requested name is either kept or reported missing, never both. */
  lemma ColumnsAccountedFor(requested: seq<string>, existing: seq<string>)
    ensures MissingColumns(requested, existing) !! (set c | c in KeptColumns(requested, existing))
    ensures MissingColumns(requested, existing) + (set c | c in KeptColumns(requested, existing))
      == set c | c in requested
  {
    KeptColumnsExact(requested, existing);
  }

  /** A request all of whose columns exist is kept whole. */
  lemma {:induction false} AllExistingKeptWhole(requested: seq<string>, existing: seq<string>)
    requires forall c :: c in requested ==> c in existing
    ensures KeptColumns(requested, existing) == requested
    decreases |requested|
  {
    if requested != [] {
      AllExistingKeptWhole(requested[1..], existing);
    }
  }

  /** Nothing is reported missing exactly when the projection keeps the whole request. */
  lemma NoneMissingIffAllKept(requested: seq<string>, existing: seq<string>)
    ensures MissingColumns(requested, existing) == {} <==> KeptColumns(requested, existing) == requested
  {
    if MissingColumns(requested, existing) == {} {
      assert forall c :: c in requested && c !in existing ==> c in MissingColumns(requested, existing);
      AllExistingKeptWhole(requested, existing);
    }
    if KeptColumns(requested, existing) == requested {
      KeptColumnsExact(requested, existing);
      assert forall c :: c !in MissingColumns(requested, existing);
    }
  }

  /** A projection is asked for when the column list is neither `None` nor empty. */
  predicate SelectionGiven(selected: Option<seq<string>>)
  {
    selected.Some? && selected.value != []
  }

  /**
    The projection step: prepend `Datetime` to a given request, report the
    requested names that do not exist (a warning, never an error), and select
    the rest in request order. A `Datetime` the caller also asked for is kept
    twice. Without a request every column is returned.
  */
  method SelectColumns(selected: Option<seq<string>>, existing: seq<string>)
    returns (columns: seq<string>, missing: set<string>, warned: bool)
    ensures SelectionGiven(selected) ==>
      && columns == KeptColumns([DatetimeColumn] + selected.value, existing)
      && missing == MissingColumns([DatetimeColumn] + selected.value, existing)
    ensures !SelectionGiven(selected) ==> columns == existing && missing == {}
    ensures warned <==> missing != {}
    ensures forall c :: c in columns ==> c in existing
    ensures SelectionGiven(selected) && DatetimeColumn in existing ==> |columns| > 0 && columns[0] == DatetimeColumn
  {
    columns, missing, warned := existing, {}, false;
    if SelectionGiven(selected) {
      var request := [DatetimeColumn] + selected.value;
      missing := MissingColumns(request, existing);
      warned := missing != {};
      columns := KeptColumns(request, existing);
      KeptColumnsExact(request, existing);
      KeptColumnsAppend([DatetimeColumn], selected.value, existing);
    }
  }

  /** No name occurs twice in the list. */
  predicate Distinct(columns: seq<string>)
  {
    forall i, j :: 0 <= i < j < |columns| ==> columns[i] != columns[j]
  }

  /**
    A name the list holds more than once, if any: the output-name check the
    frame library makes when it selects columns.
  */
  function RepeatedColumn(columns: seq<string>): (r: Option<string>)
    ensures r.None? <==> Distinct(columns)
    ensures r.Some? ==> multiset(columns)[r.value] >= 2
    decreases |columns|
  {
    if columns == [] then None
    else
      assert columns == [columns[0]] + columns[1..];
      if columns[0] in columns[1..] then
        var j :| 0 <= j < |columns[1..]| && columns[1..][j] == columns[0];
        assert columns[0] == columns[j + 1];
        Some(columns[0])
      else
        RepeatedColumn(columns[1..])
  }

  /**
    When the caller also requests `Datetime` and it exists, the projection
    holds it twice, so the selection is rejected.
  */
  lemma DatetimeRequestedTwice(selected: seq<string>, existing: seq<string>)
    requires DatetimeColumn in selected && DatetimeColumn in existing
    ensures multiset(KeptColumns([DatetimeColumn] + selected, existing))[DatetimeColumn] >= 2
    ensures !Distinct(KeptColumns([DatetimeColumn] + selected, existing))
  {
    var request := [DatetimeColumn] + selected;
    KeptColumnsExact(request, existing);
    assert multiset(request)[DatetimeColumn] == 1 + multiset(selected)[DatetimeColumn];
    var repeated := RepeatedColumn(KeptColumns(request, existing));
  }

  /** Why a load fails: a bound that does not parse, or a selection naming a column twice. */
  datatype LoadError = InvalidBound(cause: ParseError) | DuplicateColumn(name: string)

  /** The materialised result: the projected column names, the kept rows, and the reported missing columns. */
  datatype Loaded = Loaded(columns: seq<string>, rows: seq<Row>, missing: set<string>, warned: bool)

  /**
    The whole query over one plant's dataset with the given rows and column
    names: build the condition, scan, then project. Selecting a list that
    names an existing column twice (a `Datetime` the caller also asked for, or
    any repeated request) is rejected by the frame library.
  */
  method LoadDataset(
    dataset: seq<Row>, existing: seq<string>,
    machineNo: string, start: Option<TimeArg>, end: Option<TimeArg>,
    selected: Option<seq<string>>,
    parse: string -> Option<Timestamp>)
    returns (res: Result<Loaded, LoadError>)
    ensures var sb, eb := Bound(start, parse), Bound(end, parse);
      && (res.Failure? <==>
            (|| sb.Failure?
             || eb.Failure?
             || (SelectionGiven(selected) && !Distinct(KeptColumns([DatetimeColumn] + selected.value, existing)))))
      && (sb.Failure? ==> res == Failure(InvalidBound(sb.error)))
      && (sb.Success? && eb.Failure? ==> res == Failure(InvalidBound(eb.error)))
      && (sb.Success? && eb.Success? && res.Failure? ==> res.error.DuplicateColumn?)
      && (res.Success? ==>
            forall row ::
              multiset(res.value.rows)[row] ==
                (if Kept(row, machineNo, sb.value, eb.value) then multiset(dataset)[row] else 0))
    ensures res.Success? && SelectionGiven(selected) ==>
      && res.value.columns == KeptColumns([DatetimeColumn] + selected.value, existing)
      && res.value.missing == MissingColumns([DatetimeColumn] + selected.value, existing)
    ensures res.Success? && !SelectionGiven(selected) ==> res.value.columns == existing && res.value.missing == {}
    ensures res.Success? ==> (res.value.warned <==> res.value.missing != {})
    ensures res.Success? && SelectionGiven(selected) ==> Distinct(res.value.columns)
    ensures res.Failure? && res.error.DuplicateColumn? ==>
      SelectionGiven(selected) && multiset(KeptColumns([DatetimeColumn] + selected.value, existing))[res.error.name] >= 2
    ensures res.Success? && machineNo == "" && !BoundGiven(start) && !BoundGiven(end) ==> res.value.rows == dataset
  {
    var cond := BuildCondition(machineNo, start, end, parse);
    if cond.Failure? {
      return Failure(InvalidBound(cond.error));
    }
    var rows := FilterRows(dataset, cond.value);
    FilterRowsExact(dataset, cond.value);
    if machineNo == "" && !BoundGiven(start) && !BoundGiven(end) {
      FilterKeepsAll(dataset, cond.value);
    }
    var columns, missing, warned := SelectColumns(selected, existing);
    if SelectionGiven(selected) {
      var repeated := RepeatedColumn(columns);
      if repeated.Some? {
        return Failure(DuplicateColumn(repeated.value));
      }
    }
    res := Success(Loaded(columns, rows, missing, warned));
  }

  /**
    On a consistently partitioned dataset the scan with pruning returns the
    same rows as the plain range query would.
  */
  lemma {:induction false} ScanWithPruningEqualsRangeScan(dataset: seq<Row>, machineNo: string, sdt: Option<Timestamp>, edt: Option<Timestamp>, cond: Expr, plain: Expr)
    requires forall row :: row in dataset ==> PartitionConsistent(row)
    requires forall row :: Eval(cond, row) <==> Kept(row, machineNo, sdt, edt)
    requires forall row :: Eval(plain, row) <==> InRange(row, machineNo, sdt, edt)
    ensures FilterRows(dataset, cond) == FilterRows(dataset, plain)
  {
    forall row | row in dataset
      ensures Eval(cond, row) <==> Eval(plain, row)
    {
      PruningExact(row, machineNo, sdt, edt);
    }
    FilterCongruent(dataset, cond, plain);
  }
}
