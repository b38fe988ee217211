# ID3 decision-tree learner, modelled in Dafny

This project models the decision-tree learner of `ID3.rb`. The learner has three parts:

- **Split selection** (`get_highest_information_gain`). It scans the feature indices `0 .. @features - 1` and keeps the index whose information gain is strictly greater than every gain seen before it.
- **Tree induction** (`ID3`). It groups the records by the values of the chosen feature that actually occur in the data. It creates one child `Node` per value, in first-occurrence order. A child whose group has a single label becomes a leaf. Every other child is filled in by a recursive call.
- **Prediction** (`return_class`). It walks the children of a node and follows each child whose `value` equals the record's value at `index`. It returns the leaf's `class_name`, or `nil` when no child matches. The `predictor` tally counts the correct, wrong and unpredictable records.

Modules, one per component:

- `Wrappers`: `Option`, which stands for Ruby's `nil`.
- `Sequences`: Ruby's `Array#uniq`, plus first-occurrence facts about it.
- `Records`: records `[features, label]`, `select`, `map` and `uniq` over datasets, purity, and the partition lemmas.
- `InformationGain`: split selection. The gain is an uninterpreted parameter `gain: (Dataset, nat) -> real`.
- `DecisionTree`: the `Node` value, `ID3` as a method with its loop over the children, and the function `Induce` that specifies it.
- `Prediction`: `return_class` as a method with its loop, the function `ClassOf` that specifies it, and the `predictor` tally.
- `Example`: the four-record example. Feature 0 separates the two classes.

How the model reads the Ruby:

- A `Node` keeps the four fields of the Ruby class: `index`, `value`, `children` and `class_name`. `children` is `Nil` for a leaf, as `nil` is in Ruby.
- `ID3` fills placeholder children in place. The model builds the same tree as an immutable value. The method `DecisionTree.ID3` keeps the Ruby loop and replaces each placeholder with its filled-in child.
- The root made at ID3.rb:37-39 stores the split index in both `index` and `value`.
- The Ruby `Tree` class (ID3.rb:9-15) is never built. `ID3` returns the root `Node`, and `predictor` reads its `children`. The model does the same.

## Behaviour of ID3.rb worth knowing

- **Non-termination.** ID3.rb has no guard for an impure group whose records all share the value of the chosen feature. Its one child gets the same records, so ID3.rb:50 calls itself on the same data forever. The model returns the outcome `Diverges` in that case. `DegenerateSplitDiverges` proves that such a group leads to `Diverges`. `DivergesIffDegenerateReached` proves the full equivalence: `Diverges` arises exactly when one of the calls the recursion makes gets such a group. The predicate `Reaches` describes those calls: the given data, and recursively the impure, strictly smaller groups handed to children. `PureDataBuilds` proves that class-pure data always builds.
- **Root purity.** The root is never checked for purity, so it is always an internal node. A class-pure training set gives a root whose children are all leaves.
- **Empty data.** Empty training data raises no error. The root is built with no children.
- **Prediction order.** `return_class` lets every matching child overwrite the result, so the last match decides. It does not stop at the first match. `ClassOfMatchingChild` proves that this makes no difference on the trees `ID3` builds, because at most one sibling can match.

## Model

| member | source | states |
|---|---|---|
| `Sequences.Uniq` | ID3.rb:36 | `uniq` gives a duplicate-free sequence that holds exactly the elements of its input and is no longer than it |
| `Sequences.UniqFirstOccurrenceOrder` | ID3.rb:36 | `uniq` keeps first-occurrence order: an earlier element of the result first occurs earlier in the input |
| `Records.Select` | ID3.rb:44 | `select` by feature value gives a sub-multiset of the data that holds every record with that value and only such records |
| `Records.PureIff` | ID3.rb:45-46 | `class_values.count == 1` holds exactly when the data are non-empty and every label equals the first one, and the single class value is then that label |
| `Records.SelectShrinksIff` | ID3.rb:44-50 | the records handed to a recursive call are strictly fewer than the caller's exactly when the split feature takes at least two values in the caller's data |
| `Records.FeatureValuesCover` | ID3.rb:36 | the observed values of a feature are pairwise distinct, include every record's value and include only values some record has |
| `Records.PartitionComplete` | ID3.rb:43-44 | grouping by a duplicate-free list of values that covers every record loses and duplicates no record, and the group sizes sum to the data size |
| `Records.ExactlyOneGroup` | ID3.rb:43-44 | each record lies in the group of its own value and in no other group |
| `InformationGain.BestSplit` | ID3.rb:104-115 | the chosen index lies in `[0, features)`, has gain at least that of every index, and every earlier index has strictly smaller gain; with no features the index stays 0 |
| `InformationGain.GetHighestInformationGain` | ID3.rb:104-115 | the scan that updates the running maximum only on strictly greater gain returns the first index of maximal gain |
| `InformationGain.BestSplitUnique` | ID3.rb:104-115 | the first index of maximal gain is the only index the scan can return, so the split choice is determined by the gains |
| `InformationGain.TieGoesToLowerIndex` | ID3.rb:109 | when two indices share the maximal gain, the later one is never chosen |
| `DecisionTree.ID3` | ID3.rb:34-54 | the method that fills the placeholder children one by one ends with the node given by the induction function, or reports divergence where the Ruby recursion would not end |
| `DecisionTree.InduceShape` | ID3.rb:36-41 | every child of a built node stores the parent's split index; the children's values are the feature's observed values, pairwise distinct and in first-occurrence order; the root stores the split index as both `index` and `value`, and any other node keeps its own tag and class name |
| `DecisionTree.InduceChildTags` | ID3.rb:36-41 | the j-th child of a built node carries the split index and the j-th observed value of the split feature |
| `DecisionTree.ChildLeafIffPure` | ID3.rb:43-51 | a child is a leaf exactly when its non-empty group has a single label, and the leaf then predicts that label; otherwise the child is the node that the recursive call builds from a strictly smaller group |
| `DecisionTree.FillChildLeafIffPure` | ID3.rb:44-51 | one iteration of the children loop turns a pure group into a leaf with its label, and recurses on a strictly smaller group otherwise |
| `DecisionTree.ChildrenPartitionData` | ID3.rb:36-44 | the groups of a built node's children hold every record of the node's data exactly once, and their sizes sum to the data size |
| `DecisionTree.DegenerateSplitDiverges` | ID3.rb:44-50 | impure data on which the chosen feature takes a single value send ID3 into a recursion on the same records that never ends |
| `DecisionTree.DivergesHasDegenerateCause` | ID3.rb:43-51 | when ID3 does not finish, one of the calls its recursion makes gets a sub-collection of the data that is impure and on which the chosen feature takes a single value |
| `DecisionTree.ReachedDegenerateDiverges` | ID3.rb:43-51 | when a call the recursion makes gets impure records on which the chosen feature takes a single value, the whole of ID3 does not finish |
| `DecisionTree.DivergesIffDegenerateReached` | ID3.rb:43-51 | ID3 does not finish exactly when one of the calls its recursion makes gets impure records on which the chosen feature takes a single value |
| `DecisionTree.PureDataBuilds` | ID3.rb:43-51 | on class-pure data ID3 always finishes, and every child of the root is a leaf predicting the common label |
| `Prediction.ReturnClass` | ID3.rb:180-194 | the loop over the children, in which later matches overwrite earlier ones, computes the traversal function: a leaf's class name, a recursive descent, or nothing when no child matches |
| `Prediction.ClassOfMatchingChild` | ID3.rb:184-192 | among distinct siblings the outcome is that of the one matching child, so the overwrite in the loop is harmless |
| `Prediction.ClassOfNoMatch` | ID3.rb:184-193 | when no child's value equals the record's value at the child's index, the result is `nil` |
| `Prediction.BuiltSiblingsDistinct` | ID3.rb:36 | the children of every node ID3 builds share one split index and carry pairwise distinct values |
| `Prediction.TrainingRecordClassified` | ID3.rb:180-194 | a tree whose construction finishes classifies each of its training records with that record's own label |
| `Prediction.UnseenValueUnmatched` | ID3.rb:184-193 | a vector whose value for the root split feature never occurs in the training data, or that lacks that feature, is not classified |
| `Prediction.CountsBounded` | ID3.rb:199-211 | each test record is counted at most once, as correct or as unpredictable |
| `Prediction.Predictor` | ID3.rb:196-212 | the tally counts the correctly predicted records and the unpredictable ones, and the wrong count is the rest |
| `Prediction.TrainingTally` | ID3.rb:201-208 | predicting records of the training set gives all of them correct and none unpredictable |
| `Example.FourRecordTree` | ID3.rb:34-54 | on four records where feature 0 carries all the gain, ID3 splits on feature 0 into one leaf per class |
| `Example.FourRecordPredictions` | ID3.rb:180-194 | that tree predicts `[0, 0]` as class 1.0 and `[1, 1]` as class 2.0, and gives no class for an unseen value 2 of feature 0 |

## Left out

- Entropy values (`class_entropy` and `feature_entropy`, ID3.rb:63-94) are computed with floating-point `Math.log2`. The gain is a parameter of the model and is never computed. The per-class re-weighting at ID3.rb:87-90 is therefore not reproduced.
- `InformationGain.GetHighestInformationGain`: gains are modelled as reals. Floating-point NaN and infinities are not captured. The initial `-Float::INFINITY` is modelled as "no gain seen yet".
- `preprocess_data` (ID3.rb:135-145): file I/O and CSV parsing.
- `bin_data` (ID3.rb:158-170): float flooring and scaling. The model takes integer feature values as given.
- The memoised `data` (ID3.rb:123-126): lazy global state.
- The printing in `predictor` (ID3.rb:210-212). The tally is modelled, and the test set is a parameter rather than a file.
- `DecisionTree.ID3`: the node is a value, not a mutable object. In-place updates through `attr_accessor` and aliasing between nodes are not captured. The global `@features` (9 in ID3.rb:7) is a parameter of at least 1.
- `DecisionTree.ID3`: every training record must have at least `features` values. `bin_data` guarantees this: it extends a shorter row with zero values, or fails on it when feature 3 or 4 is missing. Extra values are accepted and never read. Ruby's `nil` for a missing feature inside training records is not modelled.
- `DecisionTree.ID3`: the Ruby `ID3` returns `root` from every call, and callers discard the result of an inner call. The model returns the node each call fills in, so it has no `root` parameter.
- `DecisionTree.ID3`: where the Ruby recursion never ends, the model returns `Diverges` instead of running forever. The stack overflow Ruby eventually raises is not modelled.
- The `node == nil` branch of `return_class` (ID3.rb:181-183) dereferences `nil` and would raise, so it is not modelled.
- `perceptron.rb` is not part of this model. It is a separate classifier built on floating-point weights and random initialisation.
