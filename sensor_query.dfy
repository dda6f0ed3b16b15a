/**
  The first revision of the range query, `load_sensor_data`: select the rows of
  the whole dataset whose `Datetime` lies in an inclusive range, optionally
  restricted to one plant and one machine, then widen every integer column
  other than the partition columns `year` and `month` to float64.
*/
module SensorQuery {
  import opened Wrappers
  import opened Timestamps
  import opened Expressions

  /** An optional plant or machine filter is on when it is neither `None` nor empty (Python truthiness). */
  predicate FilterActive(v: Option<string>)
  {
    v.Some? && v.value != ""
  }

  /** The rows the query asks for. */
  predicate Selected(row: Row, startDt: Timestamp, endDt: Timestamp, plant: Option<string>, machine: Option<string>)
  {
    && Le(startDt, row.datetime)
    && Le(row.datetime, endDt)
    && (FilterActive(plant) ==> row.plantName == plant.value)
    && (FilterActive(machine) ==> row.machineNo == machine.value)
  }

  /**
    Builds the scan filter step by step: the two inclusive `Datetime` bounds,
    then a plant equality and a machine equality when those filters are on.
  */
  method BuildCondition(startDt: Timestamp, endDt: Timestamp, plant: Option<string>, machine: Option<string>)
    returns (cond: Expr)
    ensures forall row :: Eval(cond, row) <==> Selected(row, startDt, endDt, plant, machine)
  {
    cond := And(DatetimeAtLeast(startDt), DatetimeAtMost(endDt));
    ghost var afterRange := cond;
    assert forall row :: Eval(afterRange, row) <==> Le(startDt, row.datetime) && Le(row.datetime, endDt);
    if FilterActive(plant) {
      cond := And(cond, StrEquals(PlantName, plant.value));
    }
    ghost var afterPlant := cond;
    assert forall row :: Eval(afterPlant, row) <==>
      Eval(afterRange, row) && (FilterActive(plant) ==> row.plantName == plant.value);
    if FilterActive(machine) {
      cond := And(cond, StrEquals(MachineNo, machine.value));
    }
    assert forall row :: Eval(cond, row) <==>
      Eval(afterPlant, row) && (FilterActive(machine) ==> row.machineNo == machine.value);
  }

  /** Arrow column types that occur in the dataset. */
  datatype ColumnType =
    | Int8 | Int16 | Int32 | Int64
    | UInt8 | UInt16 | UInt32 | UInt64
    | Float32 | Float64
    | Utf8 | Boolean | TimestampType

  /** Arrow's "is integer": signed and unsigned integers of every width. */
  predicate IsInteger(t: ColumnType)
  {
    t.Int8? || t.Int16? || t.Int32? || t.Int64? || t.UInt8? || t.UInt16? || t.UInt32? || t.UInt64?
  }

  datatype Field = Field(name: string, typ: ColumnType)

  /** The columns read from the directory layout `plant_name/machine_no/year/month`. */
  const PartitionSchema: seq<Field> :=
    [Field("plant_name", Utf8), Field("machine_no", Utf8), Field("year", Int16), Field("month", Int8)]

  /** The partition columns that keep their integer types. */
  const KeptIntegerColumns: set<string> := {"year", "month"}

  /** The type change applied to one field of the scanned table. */
  function PromotedField(f: Field): Field
  {
    if IsInteger(f.typ) && f.name !in KeptIntegerColumns then Field(f.name, Float64) else f
  }

  /**
    The schema the table is cast to: the same fields in the same order, every
    integer field widened to float64 except `year` and `month`.
  */
  function Promoted(schema: seq<Field>): (r: seq<Field>)
    ensures |r| == |schema|
    ensures forall i :: 0 <= i < |r| ==> r[i].name == schema[i].name
    ensures forall i :: 0 <= i < |r| && !IsInteger(schema[i].typ) ==> r[i] == schema[i]
    ensures forall i :: 0 <= i < |r| && schema[i].name in KeptIntegerColumns ==> r[i] == schema[i]
    ensures forall i :: 0 <= i < |r| && IsInteger(schema[i].typ) && schema[i].name !in KeptIntegerColumns ==>
      r[i].typ == Float64
    ensures forall i :: 0 <= i < |r| && IsInteger(r[i].typ) ==> r[i].name in KeptIntegerColumns
  {
    seq(|schema|, i requires 0 <= i < |schema| => PromotedField(schema[i]))
  }

  /** The promotion loop: one new field appended per field of the table schema. */
  method PromoteSchema(schema: seq<Field>) returns (newFields: seq<Field>)
    ensures newFields == Promoted(schema)
  {
    newFields := [];
    for i := 0 to |schema|
      invariant |newFields| == i
      invariant forall k :: 0 <= k < i ==> newFields[k] == PromotedField(schema[k])
    {
      var f := schema[i];
      if IsInteger(f.typ) && f.name !in KeptIntegerColumns {
        newFields := newFields + [Field(f.name, Float64)];
      } else {
        newFields := newFields + [f];
      }
    }
  }

  /** Promoting an already promoted schema changes nothing. */
  lemma PromotedIdempotent(schema: seq<Field>)
    ensures Promoted(Promoted(schema)) == Promoted(schema)
  {
  }

  /** The partition columns come through promotion with their declared types: `year` int16, `month` int8. */
  lemma PartitionSchemaKept()
    ensures Promoted(PartitionSchema) == PartitionSchema
  {
  }

  /** A materialised result: the cast schema and the selected rows. */
  datatype Table = Table(schema: seq<Field>, rows: seq<Row>)

  /**
    The whole query over a dataset with the given rows and table schema:
    normalise both bounds (a bound that does not parse is an error, the start
    checked first), scan with the built filter, then cast the schema.
  */
  method LoadSensorData(
    dataset: seq<Row>, schema: seq<Field>,
    start: TimeArg, end: TimeArg,
    plant: Option<string>, machine: Option<string>,
    parse: string -> Option<Timestamp>)
    returns (res: Result<Table, ParseError>)
    ensures var s, e := ToDatetime(start, parse), ToDatetime(end, parse);
      && (res.Failure? <==> s.Failure? || e.Failure?)
      && (s.Failure? ==> res == Failure(s.error))
      && (s.Success? && e.Failure? ==> res == Failure(e.error))
      && (res.Success? ==>
            && res.value.schema == Promoted(schema)
            && forall row :: multiset(res.value.rows)[row] ==
                 if Selected(row, s.value, e.value, plant, machine) then multiset(dataset)[row] else 0)
  {
    var startDt := ToDatetime(start, parse);
    if startDt.Failure? {
      return Failure(startDt.error);
    }
    var endDt := ToDatetime(end, parse);
    if endDt.Failure? {
      return Failure(endDt.error);
    }
    var cond := BuildCondition(startDt.value, endDt.value, plant, machine);
    var rows := FilterRows(dataset, cond);
    FilterRowsExact(dataset, cond);
    var newFields := PromoteSchema(schema);
    res := Success(Table(newFields, rows));
  }

  /** A range whose start is after its end selects nothing. */
  lemma ReversedRangeSelectsNothing(row: Row, startDt: Timestamp, endDt: Timestamp, plant: Option<string>, machine: Option<string>)
    requires !Le(startDt, endDt)
    ensures !Selected(row, startDt, endDt, plant, machine)
  {
    if Le(startDt, row.datetime) && Le(row.datetime, endDt) {
      LeTransitive(startDt, row.datetime, endDt);
    }
  }

  /** A timestamp equal to either bound is inside the range: both ends are inclusive. */
  lemma BoundsInclusive(row: Row, startDt: Timestamp, endDt: Timestamp)
    requires Le(startDt, endDt)
    requires row.datetime == startDt || row.datetime == endDt
    ensures Selected(row, startDt, endDt, None, None)
  {
    LeReflexive(row.datetime);
  }

  /**
    A row stored a few nanoseconds after the end bound, finer than a Python
    datetime can express, is not selected.
  */
  lemma SubMicrosecondAfterEndExcluded(row: Row, startDt: Timestamp, endDt: Timestamp, plant: Option<string>, machine: Option<string>)
    requires endDt.nanosecond == 0 && row.datetime.nanosecond > 0
    requires row.datetime == endDt.(nanosecond := row.datetime.nanosecond)
    ensures !Selected(row, startDt, endDt, plant, machine)
  {
    SubMicrosecondLater(row.datetime, endDt);
  }
}
