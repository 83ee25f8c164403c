/** The two aggregators and the coding of their values in sketch protos. */
module Aggregators {

  const DESTROYED := -1

  datatype AggregatorType = Sum | Unique

  function Aggregate(t: AggregatorType, value1: int, value2: int): int {
    match t
    case Sum => value1 + value2
    case Unique => if value1 == value2 then value1 else DESTROYED
  }

  function EncodeToProtoValue(t: AggregatorType, value: int): int {
    match t
    case Sum => value
    case Unique => value + 1
  }

  function DecodeFromProtoValue(t: AggregatorType, value: int): int {
    match t
    case Sum => value
    case Unique => value - 1
  }

  lemma CodingRoundTrip(t: AggregatorType, value: int)
    ensures DecodeFromProtoValue(t, EncodeToProtoValue(t, value)) == value
    ensures EncodeToProtoValue(t, DecodeFromProtoValue(t, value)) == value
  {
  }

  lemma AggregateAssociates(t: AggregatorType, x: int, y: int, z: int)
    ensures Aggregate(t, x, y) == Aggregate(t, y, x)
    ensures Aggregate(t, Aggregate(t, x, y), z) == Aggregate(t, x, Aggregate(t, y, z))
  {
  }

  /** Aggregating one value per column, as one register absorbs a tuple. */
  function AggregateTuple(types: seq<AggregatorType>, a: seq<int>, b: seq<int>): (r: seq<int>)
    requires |a| == |b| == |types|
    ensures |r| == |types|
  {
    seq(|types|, i requires 0 <= i < |types| => Aggregate(types[i], a[i], b[i]))
  }

  lemma TupleAssociates(types: seq<AggregatorType>, a: seq<int>, b: seq<int>, c: seq<int>)
    requires |a| == |b| == |c| == |types|
    ensures AggregateTuple(types, a, b) == AggregateTuple(types, b, a)
    ensures AggregateTuple(types, AggregateTuple(types, a, b), c)
         == AggregateTuple(types, a, AggregateTuple(types, b, c))
  {
  }

  ghost function Total(column: seq<int>): int {
    if |column| == 0 then 0 else Total(column[..|column| - 1]) + column[|column| - 1]
  }

  ghost predicate Unanimous(column: seq<int>) {
    forall i, j :: 0 <= i < |column| && 0 <= j < |column| ==> column[i] == column[j]
  }

  /** Column i of a non-empty list of tuples, aggregated without an order in mind. */
  ghost function ColumnValue(t: AggregatorType, column: seq<int>): int
    requires |column| > 0
  {
    match t
    case Sum => Total(column)
    case Unique => if Unanimous(column) then column[0] else DESTROYED
  }

  /** Adding one more contribution to a column, whatever its history. */
  lemma ColumnValueGrows(t: AggregatorType, column: seq<int>, v: int)
    requires |column| > 0
    ensures ColumnValue(t, column + [v]) == Aggregate(t, ColumnValue(t, column), v)
  {
    var longer := column + [v];
    assert longer[..|longer| - 1] == column;
    if t == Unique {
      assert forall i :: 0 <= i < |column| ==> column[i] == longer[i];
      assert longer[|column|] == v && longer[0] == column[0];
      if Unanimous(column) && column[0] == v {
        assert forall i :: 0 <= i < |longer| ==> longer[i] == v;
      }
    }
  }
}
