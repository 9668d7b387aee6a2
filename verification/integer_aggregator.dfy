/** `IntegerAggregator`: MIN, MAX, SUM, AVG or COUNT over an integer field,
    per group, kept in an aggregate map and a size map that each merged
    tuple updates in place; the iterator's `open` turns the maps into one
    output tuple per group. */
module IntAggregation {
  import opened Common
  import opened Tuples
  import opened Aggregates

  /** The key every tuple merges into without grouping. */
  const SingleKey := IntField(0)

  class IntegerAggregator {
    const groupByField: int
    const groupByFieldType: Type
    const aggregateField: int
    const operator: Op
    const tupleDesc: seq<Type>
    var aggregateMap: map<Field, int>
    var sizeMap: map<Field, int>
    /** The (group, value) pairs merged so far, oldest first. */
    ghost var merged: seq<(Field, int)>

    /** The maps are the fold of everything merged, and without grouping
        the single key is the only group. */
    ghost predicate Valid()
      reads this
    {
      && Groups(aggregateMap, sizeMap) == Fold(operator, merged)
      && (groupByField == NO_GROUPING ==> aggregateMap.Keys <= {SingleKey})
    }

    constructor (gbfield: int, gbfieldtype: Type, afield: int, what: Op)
      ensures Valid() && merged == []
      ensures groupByField == gbfield && groupByFieldType == gbfieldtype
      ensures aggregateField == afield && operator == what
      ensures tupleDesc == if gbfield == NO_GROUPING then [IntType] else [gbfieldtype, IntType]
    {
      groupByField := gbfield;
      groupByFieldType := gbfieldtype;
      aggregateField := afield;
      operator := what;
      aggregateMap := map[];
      sizeMap := map[];
      if gbfield == NO_GROUPING {
        tupleDesc := [IntType];
      } else {
        tupleDesc := [gbfieldtype, IntType];
      }
      merged := [];
    }

    /** `mergeTupleIntoGroup`: the tuple's value joins its group. */
    method MergeTupleIntoGroup(tup: Tuple)
      requires Valid()
      requires groupByField == NO_GROUPING || 0 <= groupByField < |tup.fields|
      requires 0 <= aggregateField < |tup.fields| && tup.fields[aggregateField].IntField?
      modifies this`aggregateMap, this`sizeMap, this`merged
      ensures Valid()
      ensures merged == old(merged) + [(GroupKey(groupByField, SingleKey, tup), tup.fields[aggregateField].value)]
    {
      var key: Field;
      if groupByField == NO_GROUPING {
        key := SingleKey;
      } else {
        key := tup.fields[groupByField];
      }
      assert key == GroupKey(groupByField, SingleKey, tup);
      var value := tup.fields[aggregateField].value;
      ghost var g := Groups(aggregateMap, sizeMap);
      ghost var next := Merge(operator, g, key, value);
      if key in aggregateMap {
        assert next == Groups(g.aggregates[key := Combined(operator, g.aggregates[key], value)], g.sizes[key := g.sizes[key] + 1]);
        sizeMap := sizeMap[key := sizeMap[key] + 1];
        var aggregateVal := aggregateMap[key];
        var combined: int;
        match operator {
          case Min =>
            combined := if aggregateVal <= value then aggregateVal else value;
          case Max =>
            combined := if aggregateVal >= value then aggregateVal else value;
          case Sum =>
            combined := aggregateVal + value;
          case Avg =>
            combined := aggregateVal + value;
          case Count =>
            combined := aggregateVal + 1;
        }
        assert combined == Combined(operator, aggregateVal, value);
        aggregateMap := aggregateMap[key := combined];
        assert Groups(aggregateMap, sizeMap) == next;
      } else {
        assert next == Groups(g.aggregates[key := Initial(operator, value)], g.sizes[key := 1]);
        assert key !in sizeMap;
        var init := if operator == Count then 1 else value;
        if key !in aggregateMap {
          aggregateMap := aggregateMap[key := init];
        }
        if key !in sizeMap {
          sizeMap := sizeMap[key := 1];
        }
        assert Groups(aggregateMap, sizeMap) == next;
      }
      FoldSnoc(operator, merged, key, value);
      merged := merged + [(key, value)];
    }

    /** `iterator()`: a fresh, not yet opened, iterator over the groups. */
    method Iterator() returns (iter: IntAggregateIterator)
      ensures fresh(iter) && iter.aggregator == this && iter.it.None?
    {
      iter := new IntAggregateIterator(this);
    }
  }

  /** What a group reports is the operator applied to the values merged into
      it; AVG reports their sum divided by their number, truncated. */
  lemma ReportedValue(op: Op, history: seq<(Field, int)>, k: Field)
    requires k in KeysOf(history)
    ensures var g := Fold(op, history);
      var vals := ValuesFor(history, k);
      && k in g.sizes && vals != []
      && Output(op, g.aggregates[k], g.sizes[k]) == (if op == Avg then JavaDiv(SumOf(vals), |vals|) else Reference(op, vals))
      && (op == Avg ==> MinOf(vals) <= Output(op, g.aggregates[k], g.sizes[k]) <= MaxOf(vals))
  {
    FoldMeaning(op, history);
    if op == Avg {
      AverageWithinRange(ValuesFor(history, k));
    }
  }

  /** The anonymous `OpIterator` of `iterator()`. */
  class IntAggregateIterator {
    const aggregator: IntegerAggregator
    /** The tuples the last `open` built that have not been returned yet;
        `None` before the first `open`. */
    var it: Option<seq<Tuple>>

    constructor (aggregator: IntegerAggregator)
      ensures this.aggregator == aggregator && it.None?
    {
      this.aggregator := aggregator;
      it := None;
    }

    /** `open`: one output tuple per group, in some order of the groups. */
    method Open() returns (ghost order: seq<Field>)
      requires aggregator.Valid()
      modifies this`it
      ensures it.Some? && |it.value| == |order|
      ensures NoDup(order) && forall k :: k in order <==> k in aggregator.aggregateMap
      ensures forall i | 0 <= i < |order| ::
        && order[i] in aggregator.sizeMap && aggregator.sizeMap[order[i]] > 0
        && it.value[i] == ResultTuple(aggregator.groupByField, order[i],
             Output(aggregator.operator, aggregator.aggregateMap[order[i]], aggregator.sizeMap[order[i]]))
      ensures aggregator.groupByField == NO_GROUPING ==> |it.value| <= 1
    {
      var agg := aggregator;
      var result: seq<Tuple> := [];
      var entries := agg.aggregateMap.Keys;
      order := [];
      while entries != {}
        invariant entries <= agg.aggregateMap.Keys
        invariant forall k :: k in order <==> k in agg.aggregateMap && k !in entries
        invariant NoDup(order) && |result| == |order|
        invariant forall i | 0 <= i < |order| ::
          && order[i] in agg.sizeMap && agg.sizeMap[order[i]] > 0
          && result[i] == ResultTuple(agg.groupByField, order[i],
               Output(agg.operator, agg.aggregateMap[order[i]], agg.sizeMap[order[i]]))
        decreases entries
      {
        var key :| key in entries;
        var val: int;
        if agg.operator == Avg {
          val := JavaDiv(agg.aggregateMap[key], agg.sizeMap[key]);
        } else {
          val := agg.aggregateMap[key];
        }
        if agg.groupByField == NO_GROUPING {
          result := result + [Tuple([IntField(val)])];
        } else {
          result := result + [Tuple([key, IntField(val)])];
        }
        assert result[|result| - 1] == ResultTuple(agg.groupByField, key, Output(agg.operator, agg.aggregateMap[key], agg.sizeMap[key]));
        NoDupSnoc(order, key);
        order := order + [key];
        entries := entries - {key};
      }
      it := Some(result);
      if agg.groupByField == NO_GROUPING {
        AtMostOne(order, SingleKey);
      }
    }

    /** `rewind`: opens again, rebuilding the output from the current maps. */
    method Rewind() returns (ghost order: seq<Field>)
      requires aggregator.Valid()
      modifies this`it
      ensures it.Some? && |it.value| == |order|
      ensures NoDup(order) && forall k :: k in order <==> k in aggregator.aggregateMap
      ensures forall i | 0 <= i < |order| ::
        && order[i] in aggregator.sizeMap && aggregator.sizeMap[order[i]] > 0
        && it.value[i] == ResultTuple(aggregator.groupByField, order[i],
             Output(aggregator.operator, aggregator.aggregateMap[order[i]], aggregator.sizeMap[order[i]]))
      ensures aggregator.groupByField == NO_GROUPING ==> |it.value| <= 1
    {
      order := Open();
    }

    /** `hasNext` of the list iterator `open` stored. */
    method HasNext() returns (b: bool)
      requires it.Some?
      ensures b <==> it.value != []
    {
      b := it.value != [];
    }

    /** `next` of the list iterator `open` stored. */
    method Next() returns (r: Result<Tuple, Exception>)
      requires it.Some?
      modifies this`it
      ensures old(it.value) == [] ==> r == Failure(NoSuchElement) && it == old(it)
      ensures old(it.value) != [] ==> r == Success(old(it.value)[0]) && it == Some(old(it.value)[1..])
    {
      if it.value == [] {
        return Failure(NoSuchElement);
      }
      r := Success(it.value[0]);
      it := Some(it.value[1..]);
    }
  }
}
