// StringAggregator.java: group-by COUNT over a StringField, one `int`
// counter per key in `groupMap`. Only the presence of the string field is
// counted, never its content.
module StringAggregation {
  import opened JavaInt
  import opened Types
  import opened Aggregation

  /** Each key's counter is its number of merges, wrapped to an `int`, and
      every key has been merged at least once. */
  ghost predicate CountsAgree(groupMap: map<GroupKey, int32>, counts: map<GroupKey, nat>)
  {
    && groupMap.Keys == counts.Keys
    && forall k :: k in counts ==> counts[k] >= 1 && groupMap[k] == Wrap(counts[k])
  }

  /** `groupMap.put(key, groupMap.getOrDefault(key, 0) + 1)`, with `int` wrap-around. */
  function Incremented(groupMap: map<GroupKey, int32>, key: GroupKey): (m: map<GroupKey, int32>)
    ensures m.Keys == groupMap.Keys + {key}
    ensures forall k :: k in groupMap && k != key ==> m[k] == groupMap[k]
    ensures key !in groupMap ==> m[key] == 1
    ensures key in groupMap && groupMap[key] < MaxInt32 ==> m[key] == groupMap[key] + 1
    ensures key in groupMap && groupMap[key] == MaxInt32 ==> m[key] == -Two31
  {
    groupMap[key := Wrap(GetOrDefault(groupMap, key, 0) as int + 1)]
  }

  /** The counter update of a merge keeps every counter equal to its key's
      number of merges. */
  lemma CountMergeAgrees(groupMap: map<GroupKey, int32>, counts: map<GroupKey, nat>, key: GroupKey)
    requires CountsAgree(groupMap, counts)
    ensures CountsAgree(Incremented(groupMap, key), counts[key := GetOrDefault(counts, key, 0) + 1])
  {
    CountStep(GetOrDefault(counts, key, 0));
  }

  class StringAggregator {
    const gbfield: int32
    const gbfieldtype: FieldType
    const afield: int32
    const op: Op
    const td: TupleDesc
    var groupMap: map<GroupKey, int32>
    /** How many tuples have been merged under each key. */
    ghost var counts: map<GroupKey, nat>

    ghost predicate Valid()
      reads this
    {
      && td == OutputSchema(gbfield, gbfieldtype)
      && (forall k :: k in counts ==> KeyFits(gbfield, k))
      && (op != Count ==> counts == map[])
      && CountsAgree(groupMap, counts)
    }

    /** The constructor accepts every operator, COUNT or not (the error comes
        at the first merge), and picks the output schema from whether there
        is grouping. */
    constructor (gbfield: int32, gbfieldtype: FieldType, afield: int32, what: Op)
      ensures Valid()
      ensures this.gbfield == gbfield && this.gbfieldtype == gbfieldtype
      ensures this.afield == afield && op == what
      ensures td == OutputSchema(gbfield, gbfieldtype)
      ensures groupMap == map[] && counts == map[]
    {
      this.gbfield := gbfield;
      this.gbfieldtype := gbfieldtype;
      this.afield := afield;
      op := what;
      groupMap := map[];
      counts := map[];
      if gbfield == NoGrouping {
        td := TupleDesc([IntType], ["aggval"]);
      } else {
        td := TupleDesc([gbfieldtype, IntType], ["gbval", "aggval"]);
      }
    }

    /** mergeTupleIntoGroup: under COUNT, adds one to the tuple's key's counter,
        starting from 0; any other operator throws IllegalArgumentException and
        changes nothing. The string's value plays no part. */
    method MergeTupleIntoGroup(tup: Tuple) returns (r: Result<()>)
      requires Valid()
      requires HasGroupField(gbfield, tup.fields)
      requires 0 <= afield < |tup.fields| && tup.fields[afield].StringField?
      modifies this
      ensures Valid()
      ensures r.Ok? <==> op == Count
      ensures r.Err? ==> r.error == IllegalArgumentException && groupMap == old(groupMap) && counts == old(counts)
      ensures r.Ok? ==>
                var key := GroupKeyOf(gbfield, tup.fields);
                && groupMap == Incremented(old(groupMap), key)
                && counts == old(counts)[key := GetOrDefault(old(counts), key, 0) + 1]
    {
      var gbField := GroupKeyOf(gbfield, tup.fields);
      assert KeyFits(gbfield, gbField);
      if op == Count {
        CountMergeAgrees(groupMap, counts, gbField);
        groupMap := Incremented(groupMap, gbField);
        counts := counts[gbField := GetOrDefault(counts, gbField, 0) + 1];
        r := Ok(());
      } else {
        r := Err(IllegalArgumentException);
      }
    }

    /** iterator: one result tuple per key of `groupMap`, each carrying that
        key's counter, the key's number of merges (at least 1). The hash map's
        key order is not modelled: the ghost `keys` names the order this call
        produced. */
    method Iterator() returns (tuples: seq<Tuple>, ghost keys: seq<GroupKey>)
      requires Valid()
      ensures |keys| == |tuples|
      ensures forall i, j :: 0 <= i < j < |keys| ==> keys[i] != keys[j]
      ensures forall k :: k in keys <==> k in groupMap
      ensures forall i :: 0 <= i < |keys| ==>
                && keys[i] in counts && KeyFits(gbfield, keys[i]) && counts[keys[i]] >= 1
                && tuples[i] == OutputTuple(gbfield, keys[i], Wrap(counts[keys[i]]))
    {
      tuples, keys := [], [];
      var pending := groupMap.Keys;
      while pending != {}
        invariant pending <= groupMap.Keys
        invariant forall k :: k in keys <==> k in groupMap && k !in pending
        invariant forall i, j :: 0 <= i < j < |keys| ==> keys[i] != keys[j]
        invariant |keys| == |tuples|
        invariant forall i :: 0 <= i < |keys| ==>
                    && keys[i] in counts && KeyFits(gbfield, keys[i]) && counts[keys[i]] >= 1
                    && tuples[i] == OutputTuple(gbfield, keys[i], Wrap(counts[keys[i]]))
        decreases pending
      {
        var field :| field in pending;
        tuples := tuples + [OutputTuple(gbfield, field, groupMap[field])];
        keys := keys + [field];
        pending := pending - {field};
      }
    }
  }
}
