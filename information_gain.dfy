/**
 * Split selection (`get_highest_information_gain`): a scan over the
 * feature indices that keeps the index of strictly greatest gain.  The
 * gain itself (`class_entropy(data) - feature_entropy(data, x)`, computed
 * with floating-point `Math.log2`) is a parameter of the model.
 */
module InformationGain {
  import opened Wrappers
  import opened Records

  /** The information gain of splitting a dataset on a feature index. */
  type Gain = (Dataset, nat) -> real

  /**
   * `k` is the first index of maximal gain among `0 .. features - 1`:
   * no index has more gain, and every earlier index has strictly less.
   */
  predicate IsFirstArgMax(gain: Gain, data: Dataset, features: nat, k: nat) {
    && k < features
    && (forall j | 0 <= j < features :: gain(data, j) <= gain(data, k))
    && (forall j | 0 <= j < k :: gain(data, j) < gain(data, k))
  }

  /**
   * The index the scan ends with after looking at the first `features`
   * indices: a later index replaces the current one only when its gain
   * is strictly greater.  With no index at all the scan keeps its
   * initial index 0.
   */
  function BestSplit(gain: Gain, data: Dataset, features: nat): (k: nat)
    ensures features == 0 ==> k == 0
    ensures features > 0 ==> IsFirstArgMax(gain, data, features, k)
  {
    if features <= 1 then 0
    else
      var b := BestSplit(gain, data, features - 1);
      if gain(data, features - 1) > gain(data, b) then features - 1 else b
  }

  /**
   * `get_highest_information_gain(data)`: `minGain` starts at minus
   * infinity (`None` here), so the first index always replaces it.
   */
  method GetHighestInformationGain(gain: Gain, data: Dataset, features: nat) returns (featureIndex: nat)
    ensures featureIndex == BestSplit(gain, data, features)
    ensures features == 0 ==> featureIndex == 0
    ensures features > 0 ==> IsFirstArgMax(gain, data, features, featureIndex)
  {
    featureIndex := 0;
    var minGain: Option<real> := None;
    var x := 0;
    while x < features
      invariant x <= features
      invariant x == 0 ==> featureIndex == 0 && minGain == None
      invariant x > 0 ==> featureIndex == BestSplit(gain, data, x) && minGain == Some(gain(data, featureIndex))
    {
      var g := gain(data, x);
      if minGain.None? || g > minGain.value {
        minGain := Some(g);
        featureIndex := x;
      }
      x := x + 1;
    }
  }

  /** The first-argmax is unique, so the split choice is determined by the gains. */
  lemma BestSplitUnique(gain: Gain, data: Dataset, features: nat, k: nat)
    requires IsFirstArgMax(gain, data, features, k)
    ensures BestSplit(gain, data, features) == k
  {
  }

  /** Of two indices with equal maximal gain, the later one is never chosen. */
  lemma TieGoesToLowerIndex(gain: Gain, data: Dataset, features: nat, i: nat, j: nat)
    requires i < j < features
    requires gain(data, i) == gain(data, j)
    requires forall k | 0 <= k < features :: gain(data, k) <= gain(data, i)
    ensures BestSplit(gain, data, features) <= i
  {
  }
}
