/**
 * Tree induction (`ID3`).  A node has the four fields of the Ruby
 * `Node` class: the feature index its parent split on, the value of that
 * feature this branch stands for, its children (`nil` for a leaf) and its
 * class name (set on leaves only).  The root stores the split index in
 * both `index` and `value`.
 */
module DecisionTree {
  import opened Wrappers
  import opened Sequences
  import opened Records
  import opened InformationGain

  datatype Node = Node(index: nat, value: Value, children: Children, className: Option<Label>)

  /** A node's `children`: Ruby's `nil` or an array of nodes. */
  datatype Children = Nil | List(nodes: seq<Node>)

  /**
   * What a call of `ID3` comes to: the filled-in node, or `Diverges` when
   * the Ruby recursion at ID3.rb:50 would call itself on the same records
   * forever (an impure group that the chosen split does not shrink).
   */
  datatype Induction = Diverges | Built(node: Node)

  /** `values.map { |y| Node.new(index, y, nil, nil) }` */
  function Placeholders(index: nat, values: seq<Value>): seq<Node> {
    seq(|values|, j requires 0 <= j < |values| => Node(index, values[j], Nil, None))
  }

  /** The node `ID3` fills: a fresh root when there is none (ID3.rb:37-39), else the given one (ID3.rb:41). */
  function Attach(node: Option<Node>, index: nat, kids: seq<Node>): Node {
    match node
    case None => Node(index, index, List(kids), None)
    case Some(n) => n.(children := List(kids))
  }

  /**
   * `ID3(data, node, root)` as a function of its inputs.  It gives the
   * node it filled: the new root on the outermost call, the given child on
   * an inner call.  The Ruby returns `root` from every call, and the inner
   * calls' results are discarded, so the `root` parameter has no
   * counterpart here.
   */
  function Induce(gain: Gain, features: nat, data: Dataset, node: Option<Node>): Induction
    requires features >= 1 && WellFormed(data, features)
    decreases |data|, 2
  {
    var index := BestSplit(gain, data, features);
    assert HasFeature(data, index);
    var placeholders := Placeholders(index, FeatureValues(data, index));
    match FillChildren(gain, features, data, index, placeholders)
    case None => Diverges
    case Some(kids) => Built(Attach(node, index, kids))
  }

  /** The loop of ID3.rb:43-52: every child is filled in, unless one of them diverges. */
  function FillChildren(gain: Gain, features: nat, data: Dataset, index: nat, children: seq<Node>): Option<seq<Node>>
    requires features >= 1 && WellFormed(data, features) && index < features
    decreases |data|, 1
  {
    if exists j | 0 <= j < |children| :: FillChild(gain, features, data, index, children[j]).None? then None
    else Some(seq(|children|, j requires 0 <= j < |children| => FillChild(gain, features, data, index, children[j]).value))
  }

  /** One iteration of that loop: a pure group makes a leaf, any other group is recursed into. */
  function FillChild(gain: Gain, features: nat, data: Dataset, index: nat, child: Node): Option<Node>
    requires features >= 1 && WellFormed(data, features) && index < features
    decreases |data|, 0
  {
    var childWiseValues := Select(data, index, child.value);
    var classValues := ClassValues(childWiseValues);
    if |classValues| == 1 then Some(child.(children := Nil, className := Some(classValues[0])))
    else if |childWiseValues| == |data| then None
    else
      match Induce(gain, features, childWiseValues, Some(child))
      case Diverges => None
      case Built(n) => Some(n)
  }

  /**
   * `ID3(data, node, root)`: choose the split, make one placeholder child
   * per observed value, then fill the children in place one by one.
   */
  method ID3(gain: Gain, features: nat, data: Dataset, node: Option<Node>) returns (result: Induction)
    requires features >= 1 && WellFormed(data, features)
    ensures result == Induce(gain, features, data, node)
    decreases |data|
  {
    var index := GetHighestInformationGain(gain, data, features);
    assert HasFeature(data, index);
    var children := Placeholders(index, FeatureValues(data, index));
    ghost var placeholders := children;
    var i := 0;
    while i < |children|
      invariant i <= |children| == |placeholders|
      invariant children[i..] == placeholders[i..]
      invariant forall j | 0 <= j < i :: FillChild(gain, features, data, index, placeholders[j]) == Some(children[j])
    {
      var child := children[i];
      assert child == placeholders[i];
      var childWiseValues := Select(data, index, child.value);
      var classValues := ClassValues(childWiseValues);
      if |classValues| == 1 {
        child := child.(children := Nil, className := Some(classValues[0]));
      } else if |childWiseValues| == |data| {
        assert FillChild(gain, features, data, index, placeholders[i]).None?;
        assert FillChildren(gain, features, data, index, placeholders).None?;
        return Diverges;
      } else {
        var sub := ID3(gain, features, childWiseValues, Some(child));
        if sub.Diverges? {
          assert FillChild(gain, features, data, index, placeholders[i]).None?;
          assert FillChildren(gain, features, data, index, placeholders).None?;
          return Diverges;
        }
        child := sub.node;
      }
      children := children[i := child];
      i := i + 1;
    }
    assert !exists j | 0 <= j < |placeholders| :: FillChild(gain, features, data, index, placeholders[j]).None?;
    assert FillChildren(gain, features, data, index, placeholders).value == children;
    result := Built(Attach(node, index, children));
  }

  /** When every child fills in, the loop ends with exactly the filled-in children. */
  lemma AllFilled(gain: Gain, features: nat, data: Dataset, index: nat, children: seq<Node>, kids: seq<Node>)
    requires features >= 1 && WellFormed(data, features) && index < features
    requires |kids| == |children|
    requires forall j | 0 <= j < |children| :: FillChild(gain, features, data, index, children[j]) == Some(kids[j])
    ensures FillChildren(gain, features, data, index, children) == Some(kids)
  {
    assert !exists j | 0 <= j < |children| :: FillChild(gain, features, data, index, children[j]).None?;
    assert FillChildren(gain, features, data, index, children).value == kids;
  }

  /** The branch values of a list of children, in order. */
  function Values(kids: seq<Node>): seq<Value> {
    seq(|kids|, j requires 0 <= j < |kids| => kids[j].value)
  }

  /** Filling in a child keeps the index and value it was created with. */
  lemma {:induction false} FillChildKeepsTag(gain: Gain, features: nat, data: Dataset, index: nat, child: Node, c: Node)
    requires features >= 1 && WellFormed(data, features) && index < features
    requires FillChild(gain, features, data, index, child) == Some(c)
    ensures c.index == child.index && c.value == child.value
  {
  }

  /** The children of a node that `ID3` filled, one per group, in the order of the placeholders. */
  lemma {:induction false} InduceUnfold(gain: Gain, features: nat, data: Dataset, node: Option<Node>, n: Node)
    requires features >= 1 && WellFormed(data, features)
    requires Induce(gain, features, data, node) == Built(n)
    ensures var index := BestSplit(gain, data, features);
      && HasFeature(data, index)
      && n == Attach(node, index, n.children.nodes)
      && |n.children.nodes| == |FeatureValues(data, index)|
      && forall j | 0 <= j < |n.children.nodes| ::
           FillChild(gain, features, data, index, Node(index, FeatureValues(data, index)[j], Nil, None))
             == Some(n.children.nodes[j])
  {
    var index := BestSplit(gain, data, features);
    assert HasFeature(data, index);
    var placeholders := Placeholders(index, FeatureValues(data, index));
    assert FillChildren(gain, features, data, index, placeholders).Some?;
  }

  /** The children of a built node carry the split index and, in order, the observed values. */
  lemma {:induction false} InduceChildTags(gain: Gain, features: nat, data: Dataset, node: Option<Node>, n: Node)
    requires features >= 1 && WellFormed(data, features)
    requires Induce(gain, features, data, node) == Built(n)
    ensures n.children.List?
    ensures var index := BestSplit(gain, data, features);
      && HasFeature(data, index)
      && |n.children.nodes| == |FeatureValues(data, index)|
      && forall j | 0 <= j < |n.children.nodes| ::
           n.children.nodes[j].index == index && n.children.nodes[j].value == FeatureValues(data, index)[j]
    ensures node.None? ==> n.index == BestSplit(gain, data, features) == n.value && n.className == None
    ensures node.Some? ==> n.index == node.value.index && n.value == node.value.value
                           && n.className == node.value.className
  {
    InduceUnfold(gain, features, data, node, n);
    var index := BestSplit(gain, data, features);
    var kids := n.children.nodes;
    var vals := FeatureValues(data, index);
    forall j | 0 <= j < |kids| ensures kids[j].index == index && kids[j].value == vals[j] {
      FillChildKeepsTag(gain, features, data, index, Node(index, vals[j], Nil, None), kids[j]);
    }
  }

  /**
   * Shape of a node that `ID3` builds: its children carry the split index,
   * their values are the values of that feature observed in the data,
   * pairwise distinct and in order of first occurrence; the root stores
   * the split index as both `index` and `value`, any other node keeps its
   * own tag and class name.
   */
  lemma {:induction false} InduceShape(gain: Gain, features: nat, data: Dataset, node: Option<Node>, n: Node)
    requires features >= 1 && WellFormed(data, features)
    requires Induce(gain, features, data, node) == Built(n)
    ensures n.children.List?
    ensures var index := BestSplit(gain, data, features);
      var kids := n.children.nodes;
      && index < features
      && HasFeature(data, index)
      && (forall c <- kids :: c.index == index)
      && Values(kids) == FeatureValues(data, index)
      && NoDup(Values(kids))
      && (forall r <- data :: r.features[index] in Values(kids))
      && (forall c <- kids :: exists r <- data :: r.features[index] == c.value)
      && (forall i, j | 0 <= i < j < |kids| ::
            FirstIndex(Column(data, index), kids[i].value) < FirstIndex(Column(data, index), kids[j].value))
    ensures node.None? ==> n.index == BestSplit(gain, data, features) == n.value && n.className == None
    ensures node.Some? ==> n.index == node.value.index && n.value == node.value.value
                           && n.className == node.value.className
  {
    InduceChildTags(gain, features, data, node, n);
    var index := BestSplit(gain, data, features);
    var kids := n.children.nodes;
    var vals := FeatureValues(data, index);
    assert Values(kids) == vals;
    FeatureValuesCover(data, index);
    forall i, j | 0 <= i < j < |kids|
      ensures FirstIndex(Column(data, index), kids[i].value) < FirstIndex(Column(data, index), kids[j].value)
    {
      UniqFirstOccurrenceOrder(Column(data, index), i, j);
    }
  }

  /** One filled-in child: a leaf exactly when its group is pure, else the recursive call's node. */
  lemma {:induction false} FillChildLeafIffPure(gain: Gain, features: nat, data: Dataset, index: nat, v: Value, c: Node)
    requires features >= 1 && WellFormed(data, features) && index < features
    requires FillChild(gain, features, data, index, Node(index, v, Nil, None)) == Some(c)
    requires exists r <- data :: r.features[index] == v
    ensures var group := Select(data, index, v);
      && |group| > 0
      && (c.children.Nil? <==> IsPure(group))
      && (IsPure(group) ==> c.className == Some(group[0].classValue)
                            && forall r <- group :: r.classValue == group[0].classValue)
      && (!IsPure(group) ==>
            |group| < |data| && Induce(gain, features, group, Some(Node(index, v, Nil, None))) == Built(c))
  {
    var group := Select(data, index, v);
    var r :| r in data && r.features[index] == v;
    assert r in group;
    PureIff(group);
    if !IsPure(group) {
      InduceChildTags(gain, features, group, Some(Node(index, v, Nil, None)), c);
    }
  }

  /**
   * A child becomes a leaf exactly when its group of records has a single
   * label, and then it predicts that label; any other child is the node
   * that the recursive call builds from its (strictly smaller) group.
   */
  lemma {:induction false} ChildLeafIffPure(gain: Gain, features: nat, data: Dataset, node: Option<Node>, n: Node, j: nat)
    requires features >= 1 && WellFormed(data, features)
    requires Induce(gain, features, data, node) == Built(n)
    requires n.children.List? && j < |n.children.nodes|
    ensures var index := BestSplit(gain, data, features);
      var c := n.children.nodes[j];
      var group := Select(data, index, c.value);
      && |group| > 0
      && (c.children.Nil? <==> IsPure(group))
      && (IsPure(group) ==> c.className == Some(group[0].classValue)
                            && forall r <- group :: r.classValue == group[0].classValue)
      && (!IsPure(group) ==>
            |group| < |data| && Induce(gain, features, group, Some(Node(index, c.value, Nil, None))) == Built(c))
  {
    InduceUnfold(gain, features, data, node, n);
    InduceChildTags(gain, features, data, node, n);
    var index := BestSplit(gain, data, features);
    var v := FeatureValues(data, index)[j];
    FeatureValuesCover(data, index);
    assert v in FeatureValues(data, index);
    FillChildLeafIffPure(gain, features, data, index, v, n.children.nodes[j]);
  }

  /**
   * Partition completeness: the groups of a built node's children hold
   * every record of the node's data exactly once.
   */
  lemma {:induction false} ChildrenPartitionData(gain: Gain, features: nat, data: Dataset, node: Option<Node>, n: Node)
    requires features >= 1 && WellFormed(data, features)
    requires Induce(gain, features, data, node) == Built(n)
    ensures n.children.List?
    ensures var index := BestSplit(gain, data, features);
      var groups := Groups(data, index, Values(n.children.nodes));
      && multiset(Flatten(groups)) == multiset(data)
      && SumSizes(groups) == |data|
      && forall r <- data :: exists j | 0 <= j < |n.children.nodes| ::
           && r in groups[j]
           && forall k | 0 <= k < |n.children.nodes| && k != j :: r !in groups[k]
  {
    InduceShape(gain, features, data, node, n);
    var index := BestSplit(gain, data, features);
    var vals := Values(n.children.nodes);
    FeatureValuesCover(data, index);
    GroupsPartition(data, index, vals);
  }

  /** Grouping by the observed values of a feature partitions the data. */
  lemma GroupsPartition(data: Dataset, index: nat, vals: seq<Value>)
    requires HasFeature(data, index)
    requires NoDup(vals)
    requires forall r <- data :: r.features[index] in vals
    ensures var groups := Groups(data, index, vals);
      && multiset(Flatten(groups)) == multiset(data)
      && SumSizes(groups) == |data|
      && forall r <- data :: exists j | 0 <= j < |vals| ::
           && r in groups[j]
           && forall k | 0 <= k < |vals| && k != j :: r !in groups[k]
  {
    PartitionComplete(data, index, vals);
    var groups := Groups(data, index, vals);
    forall r | r in data
      ensures exists j | 0 <= j < |vals| ::
                && r in groups[j]
                && forall k | 0 <= k < |vals| && k != j :: r !in groups[k]
    {
      ExactlyOneGroup(data, index, vals, r);
    }
  }

  /**
   * The case ID3.rb does not guard: records with several labels that all
   * share the value of the chosen feature.  The only child gets the same
   * records again, so the recursion never ends.
   */
  lemma {:induction false} DegenerateSplitDiverges(gain: Gain, features: nat, data: Dataset, node: Option<Node>)
    requires features >= 1 && WellFormed(data, features)
    requires Degenerate(gain, features, data)
    ensures Induce(gain, features, data, node) == Diverges
  {
    var index := BestSplit(gain, data, features);
    var v := FeatureValues(data, index)[0];
    SelectShrinksIff(data, index, v);
    assert Select(data, index, v) == data by {
      FeatureValuesCover(data, index);
      SelectAll(data, index, v);
    }
    var placeholders := Placeholders(index, FeatureValues(data, index));
    assert FillChild(gain, features, data, index, placeholders[0]).None?;
  }

  /**
   * The unguarded case of ID3.rb:50: impure records on which the chosen
   * feature takes a single value.
   */
  predicate Degenerate(gain: Gain, features: nat, d: Dataset) {
    && features >= 1
    && WellFormed(d, features)
    && !IsPure(d)
    && HasFeature(d, BestSplit(gain, d, features))
    && |FeatureValues(d, BestSplit(gain, d, features))| == 1
  }

  /** A child that fails to fill in: either its group is the whole data, or its recursive call diverges. */
  lemma {:induction false} FillChildNone(gain: Gain, features: nat, data: Dataset, index: nat, v: Value)
    requires features >= 1 && WellFormed(data, features) && index < features
    requires FillChild(gain, features, data, index, Node(index, v, Nil, None)).None?
    ensures var group := Select(data, index, v);
      && WellFormed(group, features)
      && !IsPure(group)
      && (|group| == |data| || Induce(gain, features, group, Some(Node(index, v, Nil, None))) == Diverges)
  {
  }

  /** An impure group as large as its parent's data is the whole data, split on a single value. */
  lemma {:induction false} WholeGroupDegenerate(gain: Gain, features: nat, data: Dataset, v: Value)
    requires features >= 1 && WellFormed(data, features)
    requires var index := BestSplit(gain, data, features);
      && HasFeature(data, index)
      && v in FeatureValues(data, index)
      && !IsPure(Select(data, index, v))
      && |Select(data, index, v)| == |data|
    ensures Degenerate(gain, features, data)
  {
    var index := BestSplit(gain, data, features);
    SelectShrinksIff(data, index, v);
    FeatureValuesCover(data, index);
    forall r | r in data ensures r.features[index] == v {
      assert FeatureValues(data, index)[0] == v;
    }
    SelectAll(data, index, v);
  }

  /**
   * `d` is the data of a call that the recursion of ID3 makes, starting
   * from a call on `data`: either `data` itself, or, through the child for
   * some observed value `v` of the chosen feature whose group is impure and
   * strictly smaller (ID3.rb:44-50), a call reached from that group.
   */
  predicate Reaches(gain: Gain, features: nat, data: Dataset, d: Dataset)
    requires features >= 1 && WellFormed(data, features)
    decreases |data|
  {
    var index := BestSplit(gain, data, features);
    assert HasFeature(data, index);
    || d == data
    || exists v | v in FeatureValues(data, index) ::
         && !IsPure(Select(data, index, v))
         && |Select(data, index, v)| < |data|
         && Reaches(gain, features, Select(data, index, v), d)
  }

  /**
   * `Diverges` arises only from the unguarded case: some call of the
   * recursion gets a degenerate collection of records.
   */
  lemma {:induction false} DivergesHasDegenerateCause(gain: Gain, features: nat, data: Dataset, node: Option<Node>)
    requires features >= 1 && WellFormed(data, features)
    requires Induce(gain, features, data, node) == Diverges
    ensures exists d: Dataset ::
      && Reaches(gain, features, data, d)
      && multiset(d) <= multiset(data)
      && Degenerate(gain, features, d)
    decreases |data|
  {
    var index := BestSplit(gain, data, features);
    assert HasFeature(data, index);
    var vals := FeatureValues(data, index);
    var placeholders := Placeholders(index, vals);
    assert FillChildren(gain, features, data, index, placeholders).None?;
    var j :| 0 <= j < |placeholders| && FillChild(gain, features, data, index, placeholders[j]).None?;
    var v := vals[j];
    assert v in vals;
    assert placeholders[j] == Node(index, v, Nil, None);
    FillChildNone(gain, features, data, index, v);
    var group := Select(data, index, v);
    if |group| == |data| {
      WholeGroupDegenerate(gain, features, data, v);
      assert Reaches(gain, features, data, data);
      assert multiset(data) <= multiset(data);
    } else {
      DivergesHasDegenerateCause(gain, features, group, Some(placeholders[j]));
      var d :| && Reaches(gain, features, group, d)
               && multiset(d) <= multiset(group)
               && Degenerate(gain, features, d);
      assert Reaches(gain, features, data, d);
      assert multiset(d) <= multiset(data);
    }
  }

  /** A child whose recursive call diverges makes its parent's call diverge. */
  lemma {:induction false} ChildDivergesParentDiverges(gain: Gain, features: nat, data: Dataset, node: Option<Node>, v: Value)
    requires features >= 1 && WellFormed(data, features)
    requires var index := BestSplit(gain, data, features);
      && HasFeature(data, index)
      && v in FeatureValues(data, index)
      && !IsPure(Select(data, index, v))
      && |Select(data, index, v)| < |data|
      && Induce(gain, features, Select(data, index, v), Some(Node(index, v, Nil, None))) == Diverges
    ensures Induce(gain, features, data, node) == Diverges
  {
    var index := BestSplit(gain, data, features);
    var vals := FeatureValues(data, index);
    var j := FirstIndex(vals, v);
    var placeholders := Placeholders(index, vals);
    assert placeholders[j] == Node(index, v, Nil, None);
    assert FillChild(gain, features, data, index, placeholders[j]).None?;
    assert FillChildren(gain, features, data, index, placeholders).None?;
  }

  /** A degenerate collection reached by the recursion makes the whole call diverge. */
  lemma {:induction false} ReachedDegenerateDiverges(gain: Gain, features: nat, data: Dataset, node: Option<Node>, d: Dataset)
    requires features >= 1 && WellFormed(data, features)
    requires Reaches(gain, features, data, d) && Degenerate(gain, features, d)
    ensures Induce(gain, features, data, node) == Diverges
    decreases |data|
  {
    if d == data {
      DegenerateSplitDiverges(gain, features, data, node);
    } else {
      var index := BestSplit(gain, data, features);
      assert HasFeature(data, index);
      var v :| v in FeatureValues(data, index)
               && !IsPure(Select(data, index, v))
               && |Select(data, index, v)| < |data|
               && Reaches(gain, features, Select(data, index, v), d);
      ReachedDegenerateDiverges(gain, features, Select(data, index, v), Some(Node(index, v, Nil, None)), d);
      ChildDivergesParentDiverges(gain, features, data, node, v);
    }
  }

  /**
   * ID3 runs forever exactly when one of the calls its recursion makes
   * gets impure records on which the chosen feature takes a single value.
   */
  lemma DivergesIffDegenerateReached(gain: Gain, features: nat, data: Dataset, node: Option<Node>)
    requires features >= 1 && WellFormed(data, features)
    ensures Induce(gain, features, data, node) == Diverges
        <==> exists d: Dataset :: Reaches(gain, features, data, d) && Degenerate(gain, features, d)
  {
    if Induce(gain, features, data, node) == Diverges {
      DivergesHasDegenerateCause(gain, features, data, node);
    }
    if exists d: Dataset :: Reaches(gain, features, data, d) && Degenerate(gain, features, d) {
      var d :| Reaches(gain, features, data, d) && Degenerate(gain, features, d);
      ReachedDegenerateDiverges(gain, features, data, node, d);
    }
  }

  /**
   * Class-pure training data always finish: every child's group is pure,
   * so every child becomes a leaf predicting the common label.
   */
  lemma {:induction false} PureDataBuilds(gain: Gain, features: nat, data: Dataset, node: Option<Node>)
    requires features >= 1 && WellFormed(data, features)
    requires IsPure(data)
    ensures Induce(gain, features, data, node).Built?
    ensures forall c <- Induce(gain, features, data, node).node.children.nodes ::
              c.children.Nil? && c.className == Some(data[0].classValue)
  {
    var index := BestSplit(gain, data, features);
    assert HasFeature(data, index);
    var vals := FeatureValues(data, index);
    var placeholders := Placeholders(index, vals);
    var kids := seq(|vals|, j requires 0 <= j < |vals| => Node(index, vals[j], Nil, Some(data[0].classValue)));
    PureIff(data);
    FeatureValuesCover(data, index);
    forall j | 0 <= j < |placeholders|
      ensures FillChild(gain, features, data, index, placeholders[j]) == Some(kids[j])
    {
      var group := Select(data, index, vals[j]);
      assert vals[j] in vals;
      var r :| r in data && r.features[index] == vals[j];
      assert r in group;
      PureIff(group);
      assert group[0] in data;
    }
    AllFilled(gain, features, data, index, placeholders, kids);
  }
}
