/** `StringAggregator`: COUNT per group over tuples whose aggregate field
    is a string, kept in the same aggregate and size maps as the integer
    aggregator; any other operator is refused when the aggregator is made. */
module StringAggregation {
  import opened Common
  import opened Tuples
  import opened Aggregates

  /** The key every tuple merges into without grouping. */
  const SingleKey := StringField("", 0)

  /** The (group, 1) pairs a count merges for the groups `keys`. */
  function Ones(keys: seq<Field>): (h: seq<(Field, int)>)
    ensures |h| == |keys|
    ensures forall i | 0 <= i < |keys| :: h[i] == (keys[i], 1)
  {
    seq(|keys|, i requires 0 <= i < |keys| => (keys[i], 1))
  }

  /** The maps after counting the groups `keys`, in order, from empty maps:
      the shared fold, with every value 1. */
  function Counted(keys: seq<Field>): (g: Groups)
    ensures g.aggregates.Keys == g.sizes.Keys
  {
    Fold(Count, Ones(keys))
  }

  /** Counting one more group is one more `Merge`. */
  lemma CountedSnoc(keys: seq<Field>, k: Field)
    ensures Counted(keys + [k]) == Merge(Count, Counted(keys), k, 1)
  {
    assert Ones(keys + [k]) == Ones(keys) + [(k, 1)];
    FoldSnoc(Count, Ones(keys), k, 1);
  }

  lemma {:induction false} CountedKeys(keys: seq<Field>)
    ensures Counted(keys).sizes.Keys == set k | k in keys
  {
    if keys != [] {
      var prefix, last := keys[..|keys| - 1], keys[|keys| - 1];
      assert keys == prefix + [last];
      CountedSnoc(prefix, last);
      CountedKeys(prefix);
    }
  }

  lemma {:induction false} CountedGroup(keys: seq<Field>, k: Field)
    requires k in Counted(keys).sizes
    ensures Counted(keys).aggregates[k] == Counted(keys).sizes[k] == multiset(keys)[k]
  {
    var prefix, last := keys[..|keys| - 1], keys[|keys| - 1];
    assert keys == prefix + [last];
    CountedSnoc(prefix, last);
    assert multiset(keys) == multiset(prefix) + multiset{last};
    if k in Counted(prefix).sizes {
      CountedGroup(prefix, k);
    } else {
      CountedKeys(prefix);
      assert k !in prefix;
    }
  }

  /** Counting keeps one entry per group that occurs, and both its count and
      its size are the number of occurrences of the group. */
  lemma CountedMeaning(keys: seq<Field>)
    ensures var g := Counted(keys);
      && g.sizes.Keys == set k | k in keys
      && forall k | k in g.sizes :: g.aggregates[k] == g.sizes[k] == multiset(keys)[k]
  {
    CountedKeys(keys);
    forall k | k in Counted(keys).sizes {
      CountedGroup(keys, k);
    }
  }

  /** A group absent from `keys` has no entry; so a group's count is never 0. */
  lemma CountedPositive(keys: seq<Field>, k: Field)
    requires k in Counted(keys).sizes
    ensures k in keys && Counted(keys).aggregates[k] >= 1
  {
    CountedMeaning(keys);
  }

  class StringAggregator {
    const groupByField: int
    const groupByFieldType: Type
    const aggregateField: int
    const operator: Op
    const tupleDesc: seq<Type>
    var aggregateMap: map<Field, int>
    var sizeMap: map<Field, int>
    /** The groups merged so far, oldest first. */
    ghost var merged: seq<Field>

    ghost predicate Valid()
      reads this
    {
      && operator == Count
      && Groups(aggregateMap, sizeMap) == Counted(merged)
      && (groupByField == NO_GROUPING ==> aggregateMap.Keys <= {SingleKey})
    }

    constructor (gbfield: int, gbfieldtype: Type, afield: int, what: Op)
      requires what == Count
      ensures Valid() && merged == []
      ensures groupByField == gbfield && groupByFieldType == gbfieldtype && aggregateField == afield
      ensures tupleDesc == if gbfield == NO_GROUPING then [IntType] else [gbfieldtype, IntType]
    {
      groupByField := gbfield;
      groupByFieldType := gbfieldtype;
      aggregateField := afield;
      operator := what;
      aggregateMap := map[];
      sizeMap := map[];
      if gbfield == NO_GROUPING {
        tupleDesc := [IntType];
      } else {
        tupleDesc := [gbfieldtype, IntType];
      }
      merged := [];
    }

    /** The public constructor: `IllegalArgumentException` unless the
        operator is COUNT. */
    static method Create(gbfield: int, gbfieldtype: Type, afield: int, what: Op)
      returns (r: Result<StringAggregator, Exception>)
      ensures r.Failure? <==> what != Count
      ensures r.Failure? ==> r.error == IllegalArgument
      ensures r.Success? ==>
        && fresh(r.value) && r.value.Valid() && r.value.merged == []
        && r.value.groupByField == gbfield && r.value.aggregateField == afield
        && r.value.tupleDesc == (if gbfield == NO_GROUPING then [IntType] else [gbfieldtype, IntType])
    {
      if what != Count {
        return Failure(IllegalArgument);
      }
      var agg := new StringAggregator(gbfield, gbfieldtype, afield, what);
      return Success(agg);
    }

    /** `mergeTupleIntoGroup`: one more tuple counted in its group. */
    method MergeTupleIntoGroup(tup: Tuple)
      requires Valid()
      requires groupByField == NO_GROUPING || 0 <= groupByField < |tup.fields|
      modifies this`aggregateMap, this`sizeMap, this`merged
      ensures Valid()
      ensures merged == old(merged) + [GroupKey(groupByField, SingleKey, tup)]
    {
      var key: Field;
      if groupByField == NO_GROUPING {
        key := SingleKey;
      } else {
        key := tup.fields[groupByField];
      }
      assert key == GroupKey(groupByField, SingleKey, tup);
      ghost var g := Groups(aggregateMap, sizeMap);
      ghost var next := Merge(Count, g, key, 1);
      if key in aggregateMap {
        sizeMap := sizeMap[key := sizeMap[key] + 1];
        var aggregateVal := aggregateMap[key];
        aggregateMap := aggregateMap[key := aggregateVal + 1];
        assert Groups(aggregateMap, sizeMap) == next;
      } else {
        assert key !in sizeMap;
        var init := 1;
        if key !in aggregateMap {
          aggregateMap := aggregateMap[key := init];
        }
        if key !in sizeMap {
          sizeMap := sizeMap[key := 1];
        }
        assert Groups(aggregateMap, sizeMap) == next;
      }
      CountedSnoc(merged, key);
      merged := merged + [key];
    }

    /** `iterator()`: a fresh, not yet opened, iterator over the groups. */
    method Iterator() returns (iter: StringAggregateIterator)
      ensures fresh(iter) && iter.aggregator == this && iter.it.None?
    {
      iter := new StringAggregateIterator(this);
    }
  }

  /** The anonymous `OpIterator` of `iterator()`. */
  class StringAggregateIterator {
    const aggregator: StringAggregator
    /** The tuples the last `open` built that have not been returned yet;
        `None` before the first `open`. */
    var it: Option<seq<Tuple>>

    constructor (aggregator: StringAggregator)
      ensures this.aggregator == aggregator && it.None?
    {
      this.aggregator := aggregator;
      it := None;
    }

    /** `open`: one `(count)` or `(group, count)` tuple per group, in some
        order of the groups, each count the group's number of tuples. */
    method Open() returns (ghost order: seq<Field>)
      requires aggregator.Valid()
      modifies this`it
      ensures it.Some? && |it.value| == |order|
      ensures NoDup(order) && forall k :: k in order <==> k in aggregator.aggregateMap
      ensures forall i | 0 <= i < |order| ::
        && order[i] in aggregator.aggregateMap
        && it.value[i] == ResultTuple(aggregator.groupByField, order[i], multiset(aggregator.merged)[order[i]])
      ensures aggregator.groupByField == NO_GROUPING ==> |it.value| <= 1
    {
      var agg := aggregator;
      var result: seq<Tuple> := [];
      var entries := agg.aggregateMap.Keys;
      order := [];
      while entries != {}
        invariant entries <= agg.aggregateMap.Keys
        invariant forall k :: k in order <==> k in agg.aggregateMap && k !in entries
        invariant NoDup(order) && |result| == |order|
        invariant forall i | 0 <= i < |order| ::
          && order[i] in agg.aggregateMap
          && result[i] == ResultTuple(agg.groupByField, order[i], multiset(agg.merged)[order[i]])
        decreases entries
      {
        var key :| key in entries;
        var val := agg.aggregateMap[key];
        CountedGroup(agg.merged, key);
        if agg.groupByField == NO_GROUPING {
          result := result + [Tuple([IntField(val)])];
        } else {
          result := result + [Tuple([key, IntField(val)])];
        }
        assert result[|result| - 1] == ResultTuple(agg.groupByField, key, val);
        NoDupSnoc(order, key);
        order := order + [key];
        entries := entries - {key};
      }
      it := Some(result);
      if agg.groupByField == NO_GROUPING {
        AtMostOne(order, SingleKey);
      }
    }

    /** `rewind`: opens again, rebuilding the output from the current maps. */
    method Rewind() returns (ghost order: seq<Field>)
      requires aggregator.Valid()
      modifies this`it
      ensures it.Some? && |it.value| == |order|
      ensures NoDup(order) && forall k :: k in order <==> k in aggregator.aggregateMap
      ensures forall i | 0 <= i < |order| ::
        && order[i] in aggregator.aggregateMap
        && it.value[i] == ResultTuple(aggregator.groupByField, order[i], multiset(aggregator.merged)[order[i]])
      ensures aggregator.groupByField == NO_GROUPING ==> |it.value| <= 1
    {
      order := Open();
    }

    /** `hasNext` of the list iterator `open` stored. */
    method HasNext() returns (b: bool)
      requires it.Some?
      ensures b <==> it.value != []
    {
      b := it.value != [];
    }

    /** `next` of the list iterator `open` stored. */
    method Next() returns (r: Result<Tuple, Exception>)
      requires it.Some?
      modifies this`it
      ensures old(it.value) == [] ==> r == Failure(NoSuchElement) && it == old(it)
      ensures old(it.value) != [] ==> r == Success(old(it.value)[0]) && it == Some(old(it.value)[1..])
    {
      if it.value == [] {
        return Failure(NoSuchElement);
      }
      r := Success(it.value[0]);
      it := Some(it.value[1..]);
    }
  }
}
