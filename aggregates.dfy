// What IntegerAggregator and StringAggregator share: the aggregate operators,
// the group key of a tuple, the output schema and output tuples, and the
// reference definitions of each aggregate over the values merged under a key.
module Aggregation {
  import opened JavaInt
  import opened Types

  /** Aggregator.Op. */
  datatype Op = Min | Max | Sum | Avg | Count | SumCount | ScAvg

  /** Aggregator.NO_GROUPING: the group-by index meaning "no grouping". */
  const NoGrouping: int32 := -1

  /** A group key: the tuple's group-by field, or `None` (Java's null) when
      there is no grouping. */
  type GroupKey = Option<Field>

  /** A schema: field types and field names. */
  datatype TupleDesc = TupleDesc(types: seq<FieldType>, names: seq<string>)

  /** The aggregators' output schema: (aggval) without grouping,
      (gbval, aggval) with it. */
  function OutputSchema(gbfield: int32, gbfieldtype: FieldType): (td: TupleDesc)
    ensures |td.types| == |td.names| == (if gbfield == NoGrouping then 1 else 2)
    ensures td.types[|td.types| - 1] == IntType && td.names[|td.names| - 1] == "aggval"
    ensures gbfield != NoGrouping ==> td.types[0] == gbfieldtype && td.names[0] == "gbval"
  {
    if gbfield == NoGrouping then TupleDesc([IntType], ["aggval"])
    else TupleDesc([gbfieldtype, IntType], ["gbval", "aggval"])
  }

  /** The fields a tuple must have for a merge to read its group-by field. */
  predicate HasGroupField(gbfield: int32, fields: seq<Field>)
  {
    gbfield == NoGrouping || 0 <= gbfield < |fields|
  }

  /** The key a tuple is merged under: null without grouping, else its group-by field. */
  function GroupKeyOf(gbfield: int32, fields: seq<Field>): (key: GroupKey)
    requires HasGroupField(gbfield, fields)
    ensures KeyFits(gbfield, key)
    ensures key.Some? ==> key.value == fields[gbfield]
  {
    if gbfield == NoGrouping then None else Some(fields[gbfield])
  }

  /** A key is null exactly when there is no grouping. */
  predicate KeyFits(gbfield: int32, key: GroupKey)
  {
    (gbfield == NoGrouping) == key.None?
  }

  /** The result tuple for one group: (aggval), or (gbval, aggval) when grouping. */
  function OutputTuple(gbfield: int32, key: GroupKey, aggval: int32): (t: Tuple)
    requires KeyFits(gbfield, key)
    ensures |t.fields| == (if key.Some? then 2 else 1)
    ensures t.fields[|t.fields| - 1] == IntField(aggval)
    ensures key.Some? ==> t.fields[0] == key.value
    ensures t.rid.None?
  {
    if gbfield == NoGrouping then Tuple([IntField(aggval)], None)
    else Tuple([key.value, IntField(aggval)], None)
  }

  /** A result tuple has one field per column of the output schema: the group
      key under "gbval" when grouping, and the aggregate value under "aggval". */
  lemma OutputTupleFitsSchema(gbfield: int32, gbfieldtype: FieldType, key: GroupKey, aggval: int32)
    requires KeyFits(gbfield, key)
    ensures var t, td := OutputTuple(gbfield, key, aggval), OutputSchema(gbfield, gbfieldtype);
            && |t.fields| == |td.types|
            && t.fields[|t.fields| - 1] == IntField(aggval)
            && (key.Some? ==> t.fields[0] == key.value)
  {
  }

  // ---------------------------------------------------------------------------
  // Reference definitions of the aggregates over the values merged under a key,
  // in merge order.

  /** The largest value. */
  function SeqMax(s: seq<int32>): (m: int32)
    requires s != []
    ensures m in s && forall x :: x in s ==> x <= m
  {
    if |s| == 1 then s[0]
    else
      var front, last := s[..|s| - 1], s[|s| - 1];
      assert s == front + [last];
      var m := SeqMax(front);
      if m < last then last else m
  }

  /** The smallest value. */
  function SeqMin(s: seq<int32>): (m: int32)
    requires s != []
    ensures m in s && forall x :: x in s ==> m <= x
  {
    if |s| == 1 then s[0]
    else
      var front, last := s[..|s| - 1], s[|s| - 1];
      assert s == front + [last];
      var m := SeqMin(front);
      if last < m then last else m
  }

  /** The exact sum, without wrap-around. */
  function ExactSum(s: seq<int32>): int
  {
    if s == [] then 0 else ExactSum(s[..|s| - 1]) + s[|s| - 1]
  }

  /** AVG: the 32-bit wrapping sum divided by the number of values, truncated
      toward zero as Java's int division does. */
  function Average(s: seq<int32>): (a: int32)
    requires s != []
    ensures Wrap(ExactSum(s)) >= 0 ==> 0 <= Wrap(ExactSum(s)) - a * |s| < |s|
    ensures Wrap(ExactSum(s)) < 0 ==> -|s| < Wrap(ExactSum(s)) - a * |s| <= 0
  {
    TruncDiv(Wrap(ExactSum(s)), |s|)
  }

  /** The operators the integer aggregator supports. */
  predicate Supported(op: Op)
  {
    op.Min? || op.Max? || op.Sum? || op.Avg? || op.Count?
  }

  /** What a key's result must be, given the values merged under it. */
  function Aggregate(op: Op, s: seq<int32>): int32
    requires Supported(op) && s != []
  {
    match op
    case Min => SeqMin(s)
    case Max => SeqMax(s)
    case Sum => Wrap(ExactSum(s))
    case Count => Wrap(|s|)
    case Avg => Average(s)
  }

  /** HashMap.getOrDefault. */
  function GetOrDefault<V>(m: map<GroupKey, V>, key: GroupKey, default: V): V
  {
    if key in m then m[key] else default
  }

  /** The operators that keep one running `int` per key. */
  predicate RunningOp(op: Op)
  {
    op.Min? || op.Max? || op.Sum? || op.Count?
  }

  /** The value mergeTupleIntoGroup puts under `key` for a running operator:
      MAX and MIN compare with the key's value, defaulting to `v` itself;
      SUM and COUNT add to it, defaulting to 0, with `int` wrap-around. */
  function RunningValue(op: Op, groupMap: map<GroupKey, int32>, key: GroupKey, v: int32): (r: int32)
    requires RunningOp(op)
    ensures op.Max? ==> v <= r && (key in groupMap ==> groupMap[key] <= r)
                        && (r == v || (key in groupMap && r == groupMap[key]))
    ensures op.Min? ==> r <= v && (key in groupMap ==> r <= groupMap[key])
                        && (r == v || (key in groupMap && r == groupMap[key]))
    ensures op.Sum? ==> (r - GetOrDefault(groupMap, key, 0) - v) % Two32 == 0
    ensures op.Count? ==> (r - GetOrDefault(groupMap, key, 0) - 1) % Two32 == 0
  {
    match op
    case Max =>
      var current := GetOrDefault(groupMap, key, v);
      if current < v then v else current
    case Min =>
      var current := GetOrDefault(groupMap, key, v);
      if v < current then v else current
    case Sum => Wrap(GetOrDefault(groupMap, key, 0) as int + v)
    case Count => Wrap(GetOrDefault(groupMap, key, 0) as int + 1)
  }

  /** The values merged under each key after `v` is merged under `key`. */
  function Appended<T>(m: map<GroupKey, seq<T>>, key: GroupKey, v: T): (r: map<GroupKey, seq<T>>)
    ensures r.Keys == m.Keys + {key}
    ensures r[key] == GetOrDefault(m, key, []) + [v]
    ensures forall k :: k in m && k != key ==> r[k] == m[k]
  {
    m[key := GetOrDefault(m, key, []) + [v]]
  }

  /** Every key's running value is the aggregate of the values merged under it,
      and every key has at least one value. */
  ghost predicate Agrees(op: Op, groupMap: map<GroupKey, int32>, merged: map<GroupKey, seq<int32>>)
  {
    && Supported(op)
    && groupMap.Keys == merged.Keys
    && forall k :: k in merged ==> merged[k] != [] && groupMap[k] == Aggregate(op, merged[k])
  }

  /** Merging keeps every running value equal to the aggregate of its key's
      values: MAX and MIN start from the first value, SUM and COUNT from 0. */
  lemma MergeAgrees(op: Op, groupMap: map<GroupKey, int32>, merged: map<GroupKey, seq<int32>>, key: GroupKey, v: int32)
    requires RunningOp(op) && Agrees(op, groupMap, merged)
    ensures Agrees(op, groupMap[key := RunningValue(op, groupMap, key, v)], Appended(merged, key, v))
  {
    var before := GetOrDefault(merged, key, []);
    assert key in merged ==> groupMap[key] == Aggregate(op, before);
    ValueAfterMerge(op, groupMap, key, v, before);
    UpdateAgrees(op, groupMap, merged, key, RunningValue(op, groupMap, key, v), before + [v]);
  }

  /** Replacing one key's values and running value by a matching pair keeps the maps in agreement. */
  lemma UpdateAgrees(op: Op, groupMap: map<GroupKey, int32>, merged: map<GroupKey, seq<int32>>,
                     key: GroupKey, value: int32, values: seq<int32>)
    requires Agrees(op, groupMap, merged)
    requires values != [] && value == Aggregate(op, values)
    ensures Agrees(op, groupMap[key := value], merged[key := values])
  {
    var m, after := groupMap[key := value], merged[key := values];
    forall k | k in after
      ensures after[k] != [] && m[k] == Aggregate(op, after[k])
    {
      if k != key {
        assert after[k] == merged[k] && m[k] == groupMap[k];
      }
    }
    assert m.Keys == after.Keys;
  }

  /** The one running value a merge changes, given the values merged under its key so far. */
  lemma ValueAfterMerge(op: Op, groupMap: map<GroupKey, int32>, key: GroupKey, v: int32, before: seq<int32>)
    requires RunningOp(op)
    requires key in groupMap <==> before != []
    requires key in groupMap ==> groupMap[key] == Aggregate(op, before)
    ensures RunningValue(op, groupMap, key, v) == Aggregate(op, before + [v])
  {
    if op.Max? {
      MaxMerge(groupMap, key, v, before);
    } else if op.Min? {
      MinMerge(groupMap, key, v, before);
    } else if op.Sum? {
      SumMerge(groupMap, key, v, before);
    } else {
      CountMerge(groupMap, key, v, before);
    }
  }

  lemma MaxMerge(groupMap: map<GroupKey, int32>, key: GroupKey, v: int32, before: seq<int32>)
    requires key in groupMap <==> before != []
    requires key in groupMap ==> groupMap[key] == SeqMax(before)
    ensures RunningValue(Max, groupMap, key, v) == SeqMax(before + [v])
  {
    if before == [] {
      assert before + [v] == [v];
    } else {
      MaxStep(before, v);
    }
  }

  lemma MinMerge(groupMap: map<GroupKey, int32>, key: GroupKey, v: int32, before: seq<int32>)
    requires key in groupMap <==> before != []
    requires key in groupMap ==> groupMap[key] == SeqMin(before)
    ensures RunningValue(Min, groupMap, key, v) == SeqMin(before + [v])
  {
    if before == [] {
      assert before + [v] == [v];
    } else {
      MinStep(before, v);
    }
  }

  lemma SumMerge(groupMap: map<GroupKey, int32>, key: GroupKey, v: int32, before: seq<int32>)
    requires key in groupMap <==> before != []
    requires key in groupMap ==> groupMap[key] == Wrap(ExactSum(before))
    ensures RunningValue(Sum, groupMap, key, v) == Wrap(ExactSum(before + [v]))
  {
    SumStep(before, v);
    if before == [] {
      assert ExactSum(before) == 0;
    }
  }

  lemma CountMerge(groupMap: map<GroupKey, int32>, key: GroupKey, v: int32, before: seq<int32>)
    requires key in groupMap <==> before != []
    requires key in groupMap ==> groupMap[key] == Wrap(|before|)
    ensures RunningValue(Count, groupMap, key, v) == Wrap(|before + [v]|)
  {
    CountStep(|before|);
  }

  /** Merging one more value under MAX is `Math.max` of the running value and the new one. */
  lemma {:induction false} MaxStep(s: seq<int32>, v: int32)
    requires s != []
    ensures SeqMax(s + [v]) == if SeqMax(s) < v then v else SeqMax(s)
  {
    assert (s + [v])[..|s|] == s;
  }

  /** Merging one more value under MIN is `Math.min` of the running value and the new one. */
  lemma {:induction false} MinStep(s: seq<int32>, v: int32)
    requires s != []
    ensures SeqMin(s + [v]) == if v < SeqMin(s) then v else SeqMin(s)
  {
    assert (s + [v])[..|s|] == s;
  }

  /** A running Java `int` sum, wrapped after every addition, is the exact sum wrapped once. */
  lemma {:induction false} SumStep(s: seq<int32>, v: int32)
    ensures Wrap(ExactSum(s + [v])) == Wrap(Wrap(ExactSum(s)) + v)
  {
    assert (s + [v])[..|s|] == s;
    WrapAdd(ExactSum(s), v);
  }

  /** A running Java `int` counter, wrapped after every increment, is the exact count wrapped once. */
  lemma {:induction false} CountStep(n: nat)
    ensures Wrap(n + 1) == Wrap(Wrap(n) + 1)
  {
    WrapAdd(n, 1);
  }

  /** Below 2^31 merges a count does not wrap, so every group reports at least 1. */
  lemma CountPositive(n: nat)
    requires 1 <= n < Two31
    ensures Wrap(n) == n >= 1
  {
  }

  /** When the exact sum fits an `int`, AVG lies between the group's MIN and MAX. */
  lemma {:induction false} AverageBetween(s: seq<int32>)
    requires s != [] && -Two31 <= ExactSum(s) < Two31
    ensures SeqMin(s) <= Average(s) <= SeqMax(s)
  {
    var n, lo, hi := |s|, SeqMin(s), SeqMax(s);
    SumBounds(s, lo, hi);
    assert Wrap(ExactSum(s)) == ExactSum(s);
    TruncDivWithin(ExactSum(s), n, lo, hi);
  }

  /** A quotient truncated toward zero stays within the bounds its dividend
      implies: lo * n <= a <= hi * n gives lo <= a / n <= hi. */
  lemma TruncDivWithin(a: int, n: int, lo: int, hi: int)
    requires n > 0 && lo * n <= a <= hi * n
    ensures lo <= TruncDiv(a, n) <= hi
  {
    var q := TruncDiv(a, n);
    var qn := q * n;
    assert a - n < qn < a + n;
    MulSucc(q, n);
    MulCancel(lo, q + 1, n);
    MulSucc(hi, n);
    MulCancel(q, hi + 1, n);
  }

  lemma MulSucc(a: int, n: int)
    ensures (a + 1) * n == a * n + n
  {
  }

  /** Every value lies in [lo, hi], so the exact sum lies in [lo * |s|, hi * |s|]. */
  lemma {:induction false} SumBounds(s: seq<int32>, lo: int, hi: int)
    requires forall x :: x in s ==> lo <= x <= hi
    ensures lo * |s| <= ExactSum(s) <= hi * |s|
  {
    if s != [] {
      var front := s[..|s| - 1];
      assert forall x :: x in front ==> x in s;
      SumBounds(front, lo, hi);
      assert s[|s| - 1] in s;
      assert lo * |s| == lo * |front| + lo;
      assert hi * |s| == hi * |front| + hi;
    }
  }

  lemma MulCancel(a: int, b: int, n: int)
    requires n > 0 && a * n < b * n
    ensures a < b
  {
    assert (b - a) * n == b * n - a * n;
  }
}
