// IntegerAggregator.java: group-by MIN, MAX, SUM, COUNT and AVG over an
// IntField. Every operator but AVG keeps one running `int` per key in
// `groupMap`; AVG keeps the list of values per key in `avgMap` and divides
// only when the results are produced.
module IntegerAggregation {
  import opened JavaInt
  import opened Types
  import opened Aggregation

  class IntegerAggregator {
    const gbfield: int32
    const gbfieldtype: FieldType
    const afield: int32
    const aggregationOp: Op
    const td: TupleDesc
    var groupMap: map<GroupKey, int32>
    var avgMap: map<GroupKey, seq<int32>>
    /** The aggregate-field values merged under each key, in merge order. */
    ghost var merged: map<GroupKey, seq<int32>>

    /** Each key's entry is the aggregate of the values merged under it: in
        `avgMap` (the values themselves) for AVG, in `groupMap` otherwise. */
    ghost predicate Valid()
      reads this
    {
      && td == OutputSchema(gbfield, gbfieldtype)
      && (forall k :: k in merged ==> KeyFits(gbfield, k))
      && (!Supported(aggregationOp) ==> merged == map[] && groupMap == map[] && avgMap == map[])
      && (aggregationOp == Avg ==>
            && avgMap == merged && groupMap == map[]
            && forall k :: k in avgMap ==> avgMap[k] != [])
      && (RunningOp(aggregationOp) ==> avgMap == map[] && Agrees(aggregationOp, groupMap, merged))
    }

    /** The constructor picks the output schema from whether there is grouping. */
    constructor (gbfield: int32, gbfieldtype: FieldType, afield: int32, what: Op)
      ensures Valid()
      ensures this.gbfield == gbfield && this.gbfieldtype == gbfieldtype
      ensures this.afield == afield && aggregationOp == what
      ensures td == OutputSchema(gbfield, gbfieldtype)
      ensures groupMap == map[] && avgMap == map[] && merged == map[]
    {
      this.gbfield := gbfield;
      this.gbfieldtype := gbfieldtype;
      this.afield := afield;
      aggregationOp := what;
      groupMap := map[];
      avgMap := map[];
      merged := map[];
      if gbfield == NoGrouping {
        td := TupleDesc([IntType], ["aggval"]);
      } else {
        td := TupleDesc([gbfieldtype, IntType], ["gbval", "aggval"]);
      }
    }

    /** mergeTupleIntoGroup: folds the tuple's aggregate field into its key's
        entry, or throws IllegalArgumentException for an operator it does not
        support, changing nothing. */
    method MergeTupleIntoGroup(tup: Tuple) returns (r: Result<()>)
      requires Valid()
      requires HasGroupField(gbfield, tup.fields)
      requires 0 <= afield < |tup.fields| && tup.fields[afield].IntField?
      modifies this
      ensures Valid()
      ensures r.Ok? <==> Supported(aggregationOp)
      ensures r.Err? ==> && r.error == IllegalArgumentException
                         && groupMap == old(groupMap) && avgMap == old(avgMap) && merged == old(merged)
      ensures r.Ok? ==> merged == Appended(old(merged), GroupKeyOf(gbfield, tup.fields), tup.fields[afield].i)
      ensures RunningOp(aggregationOp) ==>
                var key := GroupKeyOf(gbfield, tup.fields);
                && groupMap == old(groupMap)[key := RunningValue(aggregationOp, old(groupMap), key, tup.fields[afield].i)]
                && avgMap == old(avgMap)
      ensures aggregationOp == Avg ==>
                && avgMap == Appended(old(avgMap), GroupKeyOf(gbfield, tup.fields), tup.fields[afield].i)
                && groupMap == old(groupMap)
    {
      var gbField := GroupKeyOf(gbfield, tup.fields);
      var val := tup.fields[afield].i;
      if RunningOp(aggregationOp) {
        MergeAgrees(aggregationOp, groupMap, merged, gbField, val);
        groupMap := groupMap[gbField := RunningValue(aggregationOp, groupMap, gbField, val)];
      } else if aggregationOp == Avg {
        // the key's list, created on first use, gets the value appended
        avgMap := Appended(avgMap, gbField, val);
      } else {
        return Err(IllegalArgumentException);
      }
      merged := Appended(merged, gbField, val);
      r := Ok(());
    }

    /** iterator: one result tuple per key of the map in use (`avgMap` for AVG,
        `groupMap` otherwise), each carrying the aggregate of the values merged
        under that key; the maps are left as they are. The hash map's key order
        is not modelled: `keys` names the order this call produced. */
    method Iterator() returns (tuples: seq<Tuple>, ghost keys: seq<GroupKey>)
      requires Valid()
      ensures |keys| == |tuples|
      ensures forall i, j :: 0 <= i < j < |keys| ==> keys[i] != keys[j]
      ensures forall k :: k in keys <==> k in merged
      ensures keys != [] ==> Supported(aggregationOp)
      ensures forall i :: 0 <= i < |keys| ==>
                && keys[i] in merged && KeyFits(gbfield, keys[i]) && merged[keys[i]] != []
                && tuples[i] == OutputTuple(gbfield, keys[i], Aggregate(aggregationOp, merged[keys[i]]))
    {
      if aggregationOp == Avg {
        tuples, keys := AverageResults();
        AveragesAreAggregates(tuples, keys);
        return;
      }
      tuples, keys := RunningResults();
      RunningValuesAreAggregates(tuples, keys);
    }

    /** Under AVG, the tuples iterator() builds from `avgMap` carry each key's aggregate. */
    lemma AveragesAreAggregates(tuples: seq<Tuple>, keys: seq<GroupKey>)
      requires Valid() && aggregationOp == Avg && |keys| == |tuples|
      requires forall i :: 0 <= i < |keys| ==>
                 && keys[i] in avgMap && KeyFits(gbfield, keys[i]) && avgMap[keys[i]] != []
                 && tuples[i] == OutputTuple(gbfield, keys[i], Average(avgMap[keys[i]]))
      ensures keys != [] ==> Supported(aggregationOp)
      ensures forall i :: 0 <= i < |keys| ==>
                && keys[i] in merged && KeyFits(gbfield, keys[i]) && merged[keys[i]] != []
                && tuples[i] == OutputTuple(gbfield, keys[i], Aggregate(aggregationOp, merged[keys[i]]))
    {
    }

    /** Under a running operator, the tuples iterator() builds from `groupMap` carry each key's aggregate. */
    lemma RunningValuesAreAggregates(tuples: seq<Tuple>, keys: seq<GroupKey>)
      requires Valid() && aggregationOp != Avg && |keys| == |tuples|
      requires forall i :: 0 <= i < |keys| ==>
                 && keys[i] in groupMap && KeyFits(gbfield, keys[i])
                 && tuples[i] == OutputTuple(gbfield, keys[i], groupMap[keys[i]])
      ensures keys != [] ==> Supported(aggregationOp)
      ensures forall i :: 0 <= i < |keys| ==>
                && keys[i] in merged && KeyFits(gbfield, keys[i]) && merged[keys[i]] != []
                && tuples[i] == OutputTuple(gbfield, keys[i], Aggregate(aggregationOp, merged[keys[i]]))
    {
      if keys != [] {
        EntryIsAggregate(keys[0]);
      }
      forall i | 0 <= i < |keys|
        ensures && keys[i] in merged && merged[keys[i]] != []
                && tuples[i] == OutputTuple(gbfield, keys[i], Aggregate(aggregationOp, merged[keys[i]]))
      {
        EntryIsAggregate(keys[i]);
      }
    }

    /** Under a running operator, a key's entry in `groupMap` is the aggregate of its values. */
    lemma EntryIsAggregate(k: GroupKey)
      requires Valid() && aggregationOp != Avg && k in groupMap
      ensures Supported(aggregationOp) && k in merged && merged[k] != []
      ensures groupMap[k] == Aggregate(aggregationOp, merged[k])
    {
    }

    /** iterator() under AVG: each key's wrapping sum divided by its list's length. */
    method AverageResults() returns (tuples: seq<Tuple>, ghost keys: seq<GroupKey>)
      requires Valid() && aggregationOp == Avg
      ensures |keys| == |tuples|
      ensures forall i, j :: 0 <= i < j < |keys| ==> keys[i] != keys[j]
      ensures forall k :: k in keys <==> k in avgMap
      ensures forall i :: 0 <= i < |keys| ==>
                && keys[i] in avgMap && KeyFits(gbfield, keys[i]) && avgMap[keys[i]] != []
                && tuples[i] == OutputTuple(gbfield, keys[i], Average(avgMap[keys[i]]))
    {
      tuples, keys := [], [];
      var pending := avgMap.Keys;
      while pending != {}
        invariant pending <= avgMap.Keys
        invariant forall k :: k in keys <==> k in avgMap && k !in pending
        invariant forall i, j :: 0 <= i < j < |keys| ==> keys[i] != keys[j]
        invariant |keys| == |tuples|
        invariant forall i :: 0 <= i < |keys| ==>
                    && keys[i] in avgMap && KeyFits(gbfield, keys[i]) && avgMap[keys[i]] != []
                    && tuples[i] == OutputTuple(gbfield, keys[i], Average(avgMap[keys[i]]))
        decreases pending
      {
        var field :| field in pending;
        var list := avgMap[field];
        var sum := WrappingSum(list);
        var avg := TruncDiv(sum, |list|);
        tuples := tuples + [OutputTuple(gbfield, field, avg)];
        keys := keys + [field];
        pending := pending - {field};
      }
    }

    /** iterator() under MIN, MAX, SUM and COUNT: each key's running value. */
    method RunningResults() returns (tuples: seq<Tuple>, ghost keys: seq<GroupKey>)
      requires Valid() && aggregationOp != Avg
      ensures |keys| == |tuples|
      ensures forall i, j :: 0 <= i < j < |keys| ==> keys[i] != keys[j]
      ensures forall k :: k in keys <==> k in groupMap
      ensures forall i :: 0 <= i < |keys| ==>
                && keys[i] in groupMap && KeyFits(gbfield, keys[i])
                && tuples[i] == OutputTuple(gbfield, keys[i], groupMap[keys[i]])
    {
      tuples, keys := [], [];
      var pending := groupMap.Keys;
      while pending != {}
        invariant pending <= groupMap.Keys
        invariant forall k :: k in keys <==> k in groupMap && k !in pending
        invariant forall i, j :: 0 <= i < j < |keys| ==> keys[i] != keys[j]
        invariant |keys| == |tuples|
        invariant forall i :: 0 <= i < |keys| ==>
                    && keys[i] in groupMap && KeyFits(gbfield, keys[i])
                    && tuples[i] == OutputTuple(gbfield, keys[i], groupMap[keys[i]])
        decreases pending
      {
        var field :| field in pending;
        tuples := tuples + [OutputTuple(gbfield, field, groupMap[field])];
        keys := keys + [field];
        pending := pending - {field};
      }
    }
  }

  /** The summing loop of iterator() under AVG: a Java `int` running sum. */
  method WrappingSum(list: seq<int32>) returns (sum: int32)
    ensures sum == Wrap(ExactSum(list))
  {
    sum := 0;
    var i := 0;
    while i < |list|
      invariant 0 <= i <= |list|
      invariant sum == Wrap(ExactSum(list[..i]))
    {
      SumStep(list[..i], list[i]);
      assert list[..i + 1] == list[..i] + [list[i]];
      sum := Wrap(sum + list[i]);
      i := i + 1;
    }
    assert list[..|list|] == list;
  }
}
