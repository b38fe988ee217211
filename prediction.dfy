/**
 * Prediction (`return_class`) and the tally `predictor` keeps over a test
 * set: correct, wrong, and unable to predict.
 */
module Prediction {
  import opened Wrappers
  import opened Records
  import opened InformationGain
  import opened DecisionTree

  /**
   * `child.value == data[child.index]`.  Reading past the end of a Ruby
   * array gives `nil`, which equals no feature value.
   */
  predicate Matches(child: Node, data: seq<Value>) {
    child.index < |data| && data[child.index] == child.value
  }

  /** What a matching child yields: its class name on a leaf, else the result of descending into it. */
  function ChildClass(child: Node, data: seq<Value>): Option<Label>
    decreases child, 1
  {
    match child.children
    case Nil => child.className
    case List(kids) => ClassOf(kids, data)
  }

  /**
   * `return_class(children, data)`: every matching child overwrites the
   * result, so the last matching child decides; `None` (Ruby's `nil`) when
   * no child matches.
   */
  function ClassOf(children: seq<Node>, data: seq<Value>): Option<Label>
    decreases children, 0
  {
    if children == [] then None
    else
      var last := children[|children| - 1];
      if Matches(last, data) then ChildClass(last, data) else ClassOf(children[..|children| - 1], data)
  }

  /** Number of nodes, the measure the recursion of `return_class` decreases. */
  ghost function NodeSize(n: Node): nat
    decreases n, 1
  {
    1 + match n.children
        case Nil => 0
        case List(kids) => ForestSize(kids)
  }

  ghost function ForestSize(children: seq<Node>): nat
    decreases children, 0
  {
    if children == [] then 0 else NodeSize(children[0]) + ForestSize(children[1..])
  }

  lemma {:induction false} ChildrenAreSmaller(children: seq<Node>, j: nat)
    requires j < |children| && children[j].children.List?
    ensures ForestSize(children[j].children.nodes) < ForestSize(children)
  {
    if j > 0 {
      ChildrenAreSmaller(children[1..], j - 1);
    }
  }

  /** `return_class(node, data)`, called with the list of children: one pass over the children, keeping the last match's result. */
  method ReturnClass(children: seq<Node>, data: seq<Value>) returns (result: Option<Label>)
    ensures result == ClassOf(children, data)
    decreases ForestSize(children)
  {
    result := None;
    var i := 0;
    while i < |children|
      invariant i <= |children|
      invariant result == ClassOf(children[..i], data)
    {
      var child := children[i];
      assert children[..i + 1][..i] == children[..i];
      if child.index < |data| && child.value == data[child.index] {
        if child.children.Nil? {
          result := child.className;
        } else {
          ChildrenAreSmaller(children, i);
          result := ReturnClass(child.children.nodes, data);
        }
      }
      i := i + 1;
    }
    assert children[..|children|] == children;
  }

  /** Siblings test the same feature and stand for pairwise distinct values of it. */
  predicate SiblingsDistinct(children: seq<Node>) {
    forall a, b | 0 <= a < b < |children| ::
      children[a].index == children[b].index && children[a].value != children[b].value
  }

  /**
   * With distinct siblings at most one child matches, so overwriting the
   * result in the loop is harmless: the outcome is that of the matching child.
   */
  lemma {:induction false} ClassOfMatchingChild(children: seq<Node>, data: seq<Value>, j: nat)
    requires SiblingsDistinct(children)
    requires j < |children| && Matches(children[j], data)
    ensures ClassOf(children, data) == ChildClass(children[j], data)
  {
    var n := |children|;
    if j < n - 1 {
      assert !Matches(children[n - 1], data);
      ClassOfMatchingChild(children[..n - 1], data, j);
    }
  }

  /** No matching child: the traversal cannot predict. */
  lemma {:induction false} ClassOfNoMatch(children: seq<Node>, data: seq<Value>)
    requires forall c <- children :: !Matches(c, data)
    ensures ClassOf(children, data) == None
  {
    if children != [] {
      ClassOfNoMatch(children[..|children| - 1], data);
    }
  }

  /** The children of every node `ID3` builds are distinct siblings. */
  lemma {:induction false} BuiltSiblingsDistinct(gain: Gain, features: nat, data: Dataset, node: Option<Node>, n: Node)
    requires features >= 1 && WellFormed(data, features)
    requires Induce(gain, features, data, node) == Built(n)
    ensures n.children.List? && SiblingsDistinct(n.children.nodes)
  {
    InduceShape(gain, features, data, node, n);
    var kids := n.children.nodes;
    forall a, b | 0 <= a < b < |kids| ensures kids[a].index == kids[b].index && kids[a].value != kids[b].value {
      assert kids[a] in kids && kids[b] in kids;
      assert Values(kids)[a] == kids[a].value && Values(kids)[b] == kids[b].value;
    }
  }

  /**
   * A tree that `ID3` finishes classifies each of its training records
   * with that record's own label.
   */
  lemma {:induction false} TrainingRecordClassified(gain: Gain, features: nat, data: Dataset, node: Option<Node>, n: Node, r: Record)
    requires features >= 1 && WellFormed(data, features)
    requires Induce(gain, features, data, node) == Built(n)
    requires r in data
    ensures n.children.List?
    ensures ClassOf(n.children.nodes, r.features) == Some(r.classValue)
    decreases |data|
  {
    InduceShape(gain, features, data, node, n);
    BuiltSiblingsDistinct(gain, features, data, node, n);
    var index := BestSplit(gain, data, features);
    var kids := n.children.nodes;
    var v := r.features[index];
    assert v in Values(kids);
    var j :| 0 <= j < |kids| && Values(kids)[j] == v;
    assert Matches(kids[j], r.features) by {
      assert kids[j] in kids;
    }
    ClassOfMatchingChild(kids, r.features, j);
    ChildLeafIffPure(gain, features, data, node, n, j);
    var group := Select(data, index, v);
    assert r in group;
    if IsPure(group) {
      assert ChildClass(kids[j], r.features) == Some(r.classValue);
    } else {
      TrainingRecordClassified(gain, features, group, Some(Node(index, v, Nil, None)), kids[j], r);
    }
  }

  /**
   * A vector whose value for the root's split feature never occurs in the
   * training data (or that is too short to have that feature) is classified
   * as unable to predict, not as some label.
   */
  lemma {:induction false} UnseenValueUnmatched(gain: Gain, features: nat, data: Dataset, node: Option<Node>, n: Node, x: seq<Value>)
    requires features >= 1 && WellFormed(data, features)
    requires Induce(gain, features, data, node) == Built(n)
    requires var index := BestSplit(gain, data, features);
      index >= |x| || forall r <- data :: r.features[index] != x[index]
    ensures n.children.List?
    ensures ClassOf(n.children.nodes, x) == None
  {
    InduceShape(gain, features, data, node, n);
    var kids := n.children.nodes;
    forall c | c in kids ensures !Matches(c, x) {
      var r :| r in data && r.features[c.index] == c.value;
    }
    ClassOfNoMatch(kids, x);
  }

  /** The prediction for one test record, made from the root's children as `predictor` does. */
  function Predict(root: Node, x: Record): Option<Label>
    requires root.children.List?
  {
    ClassOf(root.children.nodes, x.features)
  }

  /** Records of `test` predicted with their own label. */
  function CountCorrect(root: Node, test: Dataset): nat
    requires root.children.List?
  {
    if test == [] then 0
    else CountCorrect(root, test[..|test| - 1]) + if Predict(root, test[|test| - 1]) == Some(test[|test| - 1].classValue) then 1 else 0
  }

  /** Records of `test` the tree cannot classify. */
  function CountUnmatched(root: Node, test: Dataset): nat
    requires root.children.List?
  {
    if test == [] then 0
    else CountUnmatched(root, test[..|test| - 1]) + if Predict(root, test[|test| - 1]).None? then 1 else 0
  }

  /** A record is counted at most once, as correct or as unmatched. */
  lemma {:induction false} CountsBounded(root: Node, test: Dataset)
    requires root.children.List?
    ensures CountCorrect(root, test) + CountUnmatched(root, test) <= |test|
  {
    if test != [] {
      CountsBounded(root, test[..|test| - 1]);
    }
  }

  /**
   * The tally of `predictor`: correct predictions, wrong ones, and records
   * it was unable to predict (ID3.rb:199-211, without the printing).
   */
  method Predictor(root: Node, test: Dataset) returns (correct: nat, wrong: nat, nilCount: nat)
    requires root.children.List?
    ensures correct == CountCorrect(root, test)
    ensures nilCount == CountUnmatched(root, test)
    ensures correct + wrong + nilCount == |test|
  {
    correct, nilCount := 0, 0;
    var i := 0;
    while i < |test|
      invariant i <= |test|
      invariant correct == CountCorrect(root, test[..i])
      invariant nilCount == CountUnmatched(root, test[..i])
    {
      var x := test[i];
      assert test[..i + 1][..i] == test[..i];
      var k := ReturnClass(root.children.nodes, x.features);
      if k.None? {
        nilCount := nilCount + 1;
      } else if x.classValue == k.value {
        correct := correct + 1;
      }
      i := i + 1;
    }
    assert test[..|test|] == test;
    CountsBounded(root, test);
    wrong := |test| - nilCount - correct;
  }

  /** Predicting the training set itself: every record correct, none wrong, none unmatched. */
  lemma {:induction false} TrainingTally(gain: Gain, features: nat, data: Dataset, root: Node, test: Dataset)
    requires features >= 1 && WellFormed(data, features)
    requires Induce(gain, features, data, None) == Built(root)
    requires forall x <- test :: x in data
    ensures root.children.List?
    ensures CountCorrect(root, test) == |test| && CountUnmatched(root, test) == 0
  {
    InduceShape(gain, features, data, None, root);
    if test != [] {
      var last := test[|test| - 1];
      TrainingRecordClassified(gain, features, data, None, root, last);
      TrainingTally(gain, features, data, root, test[..|test| - 1]);
    }
  }
}
