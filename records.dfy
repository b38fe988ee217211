/**
 * The learner's input: discretized records `[features, label]` and the
 * grouping operations that ID3.rb writes with `map`, `uniq` and `select`.
 */
module Records {
  import opened Sequences

  /** A discretized feature value (an integer bucket after binning). */
  type Value = int
  /** A class label (read from the CSV as a float; compared only for equality). */
  type Label = real

  /** One training or test row: `x.first` is the feature vector, `x.last` the label. */
  datatype Record = Record(features: seq<Value>, classValue: Label)

  type Dataset = seq<Record>

  /**
   * Every record has at least `features` feature values: binning rewrites
   * the first `features` values and leaves any further ones as read.
   */
  predicate WellFormed(data: Dataset, features: nat) {
    forall r <- data :: |r.features| >= features
  }

  /** Feature `index` exists in every record. */
  predicate HasFeature(data: Dataset, index: nat) {
    forall r <- data :: index < |r.features|
  }

  /** `data.map { |x| x.first[index] }` */
  function Column(data: Dataset, index: nat): seq<Value>
    requires HasFeature(data, index)
  {
    seq(|data|, k requires 0 <= k < |data| => data[k].features[index])
  }

  /** `data.map { |x| x.first[index] }.uniq`: the observed values of a feature. */
  function FeatureValues(data: Dataset, index: nat): seq<Value>
    requires HasFeature(data, index)
  {
    Uniq(Column(data, index))
  }

  /** `data.select { |x| x.first[index] == v }` */
  function Select(data: Dataset, index: nat, v: Value): (sub: Dataset)
    requires HasFeature(data, index)
    ensures |sub| <= |data|
    ensures multiset(sub) <= multiset(data)
    ensures forall r <- sub :: r in data && r.features[index] == v
    ensures forall r <- data :: r.features[index] == v ==> r in sub
  {
    if data == [] then []
    else
      assert data == [data[0]] + data[1..];
      (if data[0].features[index] == v then [data[0]] else []) + Select(data[1..], index, v)
  }

  /** `data.map { |x| x.last }` */
  function Labels(data: Dataset): seq<Label> {
    seq(|data|, k requires 0 <= k < |data| => data[k].classValue)
  }

  /** `data.map { |x| x.last }.uniq`: the distinct labels present. */
  function ClassValues(data: Dataset): seq<Label> {
    Uniq(Labels(data))
  }

  /** `class_values.count == 1`: the records share a single label. */
  predicate IsPure(data: Dataset) {
    |ClassValues(data)| == 1
  }

  /** A dataset is pure exactly when it is non-empty and every label equals the first. */
  lemma PureIff(data: Dataset)
    ensures IsPure(data) <==> |data| > 0 && forall r <- data :: r.classValue == data[0].classValue
    ensures IsPure(data) ==> ClassValues(data) == [data[0].classValue]
  {
    var ls, u := Labels(data), ClassValues(data);
    if IsPure(data) {
      assert data[0].classValue == ls[0];
      forall r | r in data ensures r.classValue == u[0] {
        var k :| 0 <= k < |data| && data[k] == r;
        assert ls[k] == r.classValue && ls[k] in u;
      }
    }
    if |data| > 0 && forall r <- data :: r.classValue == data[0].classValue {
      assert ls[0] in u;
      forall x | x in u ensures x == ls[0] {
        var a :| 0 <= a < |ls| && ls[a] == x;
        assert data[a] in data;
      }
      assert |u| > 1 ==> u[0] in u && u[1] in u;
    }
  }

  /** Selecting on a value every record has keeps the whole dataset. */
  lemma {:induction false} SelectAll(data: Dataset, index: nat, v: Value)
    requires HasFeature(data, index)
    requires forall r <- data :: r.features[index] == v
    ensures Select(data, index, v) == data
  {
    if data != [] {
      assert data[1..] + [] == data[1..];
      SelectAll(data[1..], index, v);
      assert [data[0]] + data[1..] == data;
    }
  }

  /** A record with another value is dropped, so the selection shrinks. */
  lemma {:induction false} SelectDrops(data: Dataset, index: nat, v: Value, r: Record)
    requires HasFeature(data, index)
    requires r in data && r.features[index] != v
    ensures |Select(data, index, v)| < |data|
  {
    if data[0] != r {
      SelectDrops(data[1..], index, v, r);
    }
  }

  /**
   * A recursive call of ID3 gets fewer records than its caller exactly
   * when the split feature takes at least two values in the caller's data.
   */
  lemma SelectShrinksIff(data: Dataset, index: nat, v: Value)
    requires HasFeature(data, index)
    requires v in FeatureValues(data, index)
    ensures |Select(data, index, v)| < |data| <==> |FeatureValues(data, index)| >= 2
  {
    var col, vals := Column(data, index), FeatureValues(data, index);
    if |vals| >= 2 {
      var w := if vals[0] != v then vals[0] else vals[1];
      assert w != v && w in col;
      var k :| 0 <= k < |col| && col[k] == w;
      SelectDrops(data, index, v, data[k]);
    } else {
      forall r | r in data ensures r.features[index] == v {
        var k :| 0 <= k < |data| && data[k] == r;
        assert col[k] in vals;
      }
      SelectAll(data, index, v);
    }
  }

  /** `values.map { |y| data.select { |x| x.first[index] == y } }` */
  function Groups(data: Dataset, index: nat, values: seq<Value>): (g: seq<Dataset>)
    requires HasFeature(data, index)
    ensures |g| == |values|
    ensures forall j | 0 <= j < |values| :: g[j] == Select(data, index, values[j])
  {
    if values == [] then [] else [Select(data, index, values[0])] + Groups(data, index, values[1..])
  }

  /** The records of a sequence of groups, group after group. */
  function Flatten(groups: seq<Dataset>): Dataset {
    if groups == [] then [] else groups[0] + Flatten(groups[1..])
  }

  /** The sum of the group sizes. */
  function SumSizes(groups: seq<Dataset>): nat {
    if groups == [] then 0 else |groups[0]| + SumSizes(groups[1..])
  }

  /** Proof helper: the records whose value of feature `index` is among `values`, in order. */
  function SelectAmong(data: Dataset, index: nat, values: seq<Value>): Dataset
    requires HasFeature(data, index)
  {
    if data == [] then []
    else (if data[0].features[index] in values then [data[0]] else []) + SelectAmong(data[1..], index, values)
  }

  lemma {:induction false} SplitOffFirstValue(data: Dataset, index: nat, v: Value, rest: seq<Value>)
    requires HasFeature(data, index)
    requires v !in rest
    ensures multiset(SelectAmong(data, index, [v] + rest))
         == multiset(Select(data, index, v)) + multiset(SelectAmong(data, index, rest))
  {
    if data != [] {
      SplitOffFirstValue(data[1..], index, v, rest);
    }
  }

  lemma {:induction false} FlattenGroups(data: Dataset, index: nat, values: seq<Value>)
    requires HasFeature(data, index)
    requires NoDup(values)
    ensures multiset(Flatten(Groups(data, index, values))) == multiset(SelectAmong(data, index, values))
    ensures |Flatten(Groups(data, index, values))| == SumSizes(Groups(data, index, values))
  {
    if values == [] {
      SelectAmongNone(data, index);
    } else {
      assert values == [values[0]] + values[1..];
      FlattenGroups(data, index, values[1..]);
      SplitOffFirstValue(data, index, values[0], values[1..]);
    }
  }

  lemma {:induction false} SelectAmongNone(data: Dataset, index: nat)
    requires HasFeature(data, index)
    ensures SelectAmong(data, index, []) == []
  {
    if data != [] {
      SelectAmongNone(data[1..], index);
    }
  }

  lemma {:induction false} SelectAmongAll(data: Dataset, index: nat, values: seq<Value>)
    requires HasFeature(data, index)
    requires forall r <- data :: r.features[index] in values
    ensures SelectAmong(data, index, values) == data
  {
    if data != [] {
      SelectAmongAll(data[1..], index, values);
      assert [data[0]] + data[1..] == data;
    }
  }

  /**
   * Partition completeness: grouping by a duplicate-free list of values
   * that covers every record's value loses and duplicates no record; the
   * group sizes sum to the size of the data.
   */
  lemma PartitionComplete(data: Dataset, index: nat, values: seq<Value>)
    requires HasFeature(data, index)
    requires NoDup(values)
    requires forall r <- data :: r.features[index] in values
    ensures multiset(Flatten(Groups(data, index, values))) == multiset(data)
    ensures SumSizes(Groups(data, index, values)) == |data|
  {
    FlattenGroups(data, index, values);
    SelectAmongAll(data, index, values);
    assert |multiset(Flatten(Groups(data, index, values)))| == |Flatten(Groups(data, index, values))|;
  }

  /** Each record lies in the group of its own value and in no other group. */
  lemma ExactlyOneGroup(data: Dataset, index: nat, values: seq<Value>, r: Record)
    requires HasFeature(data, index)
    requires NoDup(values)
    requires r in data && r.features[index] in values
    ensures exists j | 0 <= j < |values| ::
              && values[j] == r.features[index]
              && r in Select(data, index, values[j])
              && forall k | 0 <= k < |values| && k != j :: r !in Select(data, index, values[k])
  {
    var j :| 0 <= j < |values| && values[j] == r.features[index];
    assert r in Select(data, index, values[j]);
  }

  /** The observed values of a feature cover every record's value, once each. */
  lemma FeatureValuesCover(data: Dataset, index: nat)
    requires HasFeature(data, index)
    ensures NoDup(FeatureValues(data, index))
    ensures forall r <- data :: r.features[index] in FeatureValues(data, index)
    ensures forall v <- FeatureValues(data, index) :: exists r <- data :: r.features[index] == v
  {
    var col := Column(data, index);
    forall r | r in data ensures r.features[index] in FeatureValues(data, index) {
      var k :| 0 <= k < |data| && data[k] == r;
      assert col[k] == r.features[index];
    }
    forall v | v in FeatureValues(data, index) ensures exists r <- data :: r.features[index] == v {
      var k :| 0 <= k < |col| && col[k] == v;
      assert data[k] in data;
    }
  }
}
