/**
 * A worked example: four records over two binary features, where
 * feature 0 separates the two classes (labels 1.0 and 2.0) and feature 1
 * says nothing.  With the gains entropy gives here (1 bit for feature 0,
 * none for feature 1) ID3 splits on feature 0 into two leaves.
 */
module Example {
  import opened Wrappers
  import opened Sequences
  import opened Records
  import opened InformationGain
  import opened DecisionTree
  import opened Prediction

  const R00 := Record([0, 0], 1.0)
  const R01 := Record([0, 1], 1.0)
  const R10 := Record([1, 0], 2.0)
  const R11 := Record([1, 1], 2.0)

  /** The tree ID3 builds from the four records. */
  const Expected := Node(0, 0, List([Node(0, 0, Nil, Some(1.0)), Node(0, 1, Nil, Some(2.0))]), None)

  lemma SelectTail0()
    ensures Select([R01, R10, R11], 0, 0) == [R01]
  {
  }

  lemma SelectTail1()
    ensures Select([R01, R10, R11], 0, 1) == [R10, R11]
  {
  }

  lemma SelectValue0()
    ensures Select([R00, R01, R10, R11], 0, 0) == [R00, R01]
  {
    SelectTail0();
    assert [R00, R01, R10, R11][1..] == [R01, R10, R11];
  }

  lemma SelectValue1()
    ensures Select([R00, R01, R10, R11], 0, 1) == [R10, R11]
  {
    SelectTail1();
    assert [R00, R01, R10, R11][1..] == [R01, R10, R11];
  }

  lemma ObservedValues()
    ensures FeatureValues([R00, R01, R10, R11], 0) == [0, 1]
  {
    assert Column([R00, R01, R10, R11], 0) == [0, 0, 1, 1];
    assert Uniq([0]) == [0] by { assert [0][..0] == []; }
    assert Uniq([0, 0]) == [0] by { assert [0, 0][..1] == [0]; }
    assert Uniq([0, 0, 1]) == [0, 1] by { assert [0, 0, 1][..2] == [0, 0]; }
    assert Uniq([0, 0, 1, 1]) == [0, 1] by { assert [0, 0, 1, 1][..3] == [0, 0, 1]; }
  }

  lemma GroupLabels()
    ensures ClassValues([R00, R01]) == [1.0] && ClassValues([R10, R11]) == [2.0]
  {
    PureIff([R00, R01]);
    PureIff([R10, R11]);
  }

  lemma FirstChild(gain: Gain, data: Dataset, child: Node)
    requires data == [R00, R01, R10, R11] && child == Node(0, 0, Nil, None)
    ensures FillChild(gain, 2, data, 0, child) == Some(Node(0, 0, Nil, Some(1.0)))
  {
    SelectValue0();
    GroupLabels();
  }

  lemma SecondChild(gain: Gain, data: Dataset, child: Node)
    requires data == [R00, R01, R10, R11] && child == Node(0, 1, Nil, None)
    ensures FillChild(gain, 2, data, 0, child) == Some(Node(0, 1, Nil, Some(2.0)))
  {
    SelectValue1();
    GroupLabels();
  }

  lemma RootSplit(gain: Gain, data: Dataset)
    requires data == [R00, R01, R10, R11]
    requires gain(data, 0) == 1.0 && gain(data, 1) == 0.0
    ensures WellFormed(data, 2) && BestSplit(gain, data, 2) == 0 && HasFeature(data, 0)
    ensures Placeholders(0, FeatureValues(data, 0)) == [Node(0, 0, Nil, None), Node(0, 1, Nil, None)]
  {
    ObservedValues();
  }

  lemma Assemble(gain: Gain, data: Dataset)
    requires WellFormed(data, 2) && BestSplit(gain, data, 2) == 0 && HasFeature(data, 0)
    requires Placeholders(0, FeatureValues(data, 0)) == [Node(0, 0, Nil, None), Node(0, 1, Nil, None)]
    requires FillChild(gain, 2, data, 0, Node(0, 0, Nil, None)) == Some(Node(0, 0, Nil, Some(1.0)))
    requires FillChild(gain, 2, data, 0, Node(0, 1, Nil, None)) == Some(Node(0, 1, Nil, Some(2.0)))
    ensures Induce(gain, 2, data, None) == Built(Expected)
  {
    var placeholders := Placeholders(0, FeatureValues(data, 0));
    AllFilled(gain, 2, data, 0, placeholders, [Node(0, 0, Nil, Some(1.0)), Node(0, 1, Nil, Some(2.0))]);
  }

  /** ID3 on the four records: the root splits on feature 0 into a leaf per class. */
  lemma FourRecordTree(gain: Gain)
    requires gain([R00, R01, R10, R11], 0) == 1.0 && gain([R00, R01, R10, R11], 1) == 0.0
    ensures Induce(gain, 2, [R00, R01, R10, R11], None) == Built(Expected)
  {
    RootSplit(gain, [R00, R01, R10, R11]);
    FirstChild(gain, [R00, R01, R10, R11], Node(0, 0, Nil, None));
    SecondChild(gain, [R00, R01, R10, R11], Node(0, 1, Nil, None));
    Assemble(gain, [R00, R01, R10, R11]);
  }

  /** Predicting with that tree: [0, 0] is class 1.0, [1, 1] class 2.0, an unseen 2 for feature 0 no class. */
  lemma FourRecordPredictions()
    ensures ClassOf(Expected.children.nodes, [0, 0]) == Some(1.0)
    ensures ClassOf(Expected.children.nodes, [1, 1]) == Some(2.0)
    ensures ClassOf(Expected.children.nodes, [2, 0]) == None
  {
  }
}
