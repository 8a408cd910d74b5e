/** The ID3 decision tree of `Labs/PartC/Part2/dicision_tree.py`: a tree is
    grown from labelled examples by splitting on the attribute of highest
    information gain, read back by `predict`, counted by `count_nodes`, and
    scored on the training set and by leave-one-out cross validation. The
    information gain is computed with floating-point entropy in the source;
    here it is a supplied function from examples and an attribute to a real
    number. */
module DecisionTree {
  import opened Options
  import opened Sets

  /** A row of the data: field name to value, as `dict(zip(header, row))`. */
  type Example = map<string, string>

  /** `info_gain(examples, attribute, label_key)`, supplied. */
  type Gain = (seq<Example>, string) -> real

  /** `{"label": l}`, or `{"attribute": a, "majority": m, "branches": {...}}`. */
  datatype Tree = Leaf(outcome: string) | Node(attribute: string, majority: string, branches: seq<Branch>)

  /** One entry `value: subtree` of a node's branches. */
  datatype Branch = Branch(value: string, subtree: Tree)

  /** Every example holds the label field. */
  predicate Labelled(examples: seq<Example>, key: string)
  {
    forall e | e in examples :: key in e
  }

  /** Every example holds the label field and every attribute. */
  predicate Complete(examples: seq<Example>, attrs: seq<string>, key: string)
  {
    forall e | e in examples :: key in e && forall a | a in attrs :: a in e
  }

  // ---------------------------------------------------------------------
  // majority_class
  // ---------------------------------------------------------------------

  /** `Counter(e[label_key] for e in examples)[outcome]`: the number of
      examples labelled `outcome`. */
  function Count(examples: seq<Example>, key: string, outcome: string): (n: nat)
    requires Labelled(examples, key)
    ensures n <= |examples|
  {
    if examples == [] then 0
    else (if examples[0][key] == outcome then 1 else 0) + Count(examples[1..], key, outcome)
  }

  /** No example counts twice: the "yes" and the "no" examples together are
      at most all of them. */
  lemma {:induction false} CountBoth(examples: seq<Example>, key: string)
    requires Labelled(examples, key)
    ensures Count(examples, key, "yes") + Count(examples, key, "no") <= |examples|
  {
    if examples != [] {
      CountBoth(examples[1..], key);
    }
  }

  /** `majority_class(examples, label_key)`. */
  function Majority(examples: seq<Example>, key: string): string
    requires Labelled(examples, key)
  {
    if Count(examples, key, "yes") > Count(examples, key, "no") then "yes" else "no"
  }

  /** The majority is "yes" exactly when strictly more examples say "yes"
      than "no"; a tie, and so an empty list, gives "no"; when every
      example says "yes" (or every one says "no") the majority agrees. */
  lemma MajorityMeaning(examples: seq<Example>, key: string)
    requires Labelled(examples, key)
    ensures Majority(examples, key) == "yes" || Majority(examples, key) == "no"
    ensures Majority(examples, key) == "yes" <==> Count(examples, key, "yes") > Count(examples, key, "no")
    ensures examples == [] ==> Majority(examples, key) == "no"
    ensures examples != [] && (forall e | e in examples :: e[key] == "yes") ==> Majority(examples, key) == "yes"
    ensures (forall e | e in examples :: e[key] == "no") ==> Majority(examples, key) == "no"
  {
    CountBoth(examples, key);
    if examples != [] && forall e | e in examples :: e[key] == "yes" {
      CountAll(examples, key, "yes");
    }
  }

  /** When every example is labelled `outcome`, all of them are counted. */
  lemma {:induction false} CountAll(examples: seq<Example>, key: string, outcome: string)
    requires Labelled(examples, key) && forall e | e in examples :: e[key] == outcome
    ensures Count(examples, key, outcome) == |examples|
  {
    if examples != [] {
      assert forall e | e in examples[1..] :: e in examples;
      CountAll(examples[1..], key, outcome);
    }
  }

  // ---------------------------------------------------------------------
  // The pieces of build_tree
  // ---------------------------------------------------------------------

  /** `all(c == classifications[0] for c in classifications)`. */
  predicate Uniform(examples: seq<Example>, key: string)
    requires Labelled(examples, key) && examples != []
  {
    forall i | 0 <= i < |examples| :: examples[i][key] == examples[0][key]
  }

  /** The position `max(gains, key=lambda x: x[1])` takes among the first n
      attributes: the first of highest gain. */
  function BestIndex(examples: seq<Example>, attrs: seq<string>, gain: Gain, n: nat): (k: nat)
    requires 0 < n <= |attrs|
    ensures k < n
    ensures forall j | 0 <= j < n :: gain(examples, attrs[j]) <= gain(examples, attrs[k])
    ensures forall j | 0 <= j < k :: gain(examples, attrs[j]) < gain(examples, attrs[k])
    decreases n
  {
    if n == 1 then 0
    else
      var b := BestIndex(examples, attrs, gain, n - 1);
      if gain(examples, attrs[b]) < gain(examples, attrs[n - 1]) then n - 1 else b
  }

  /** The best attribute: it has the highest gain of all. */
  function Best(examples: seq<Example>, attrs: seq<string>, gain: Gain): (a: string)
    requires attrs != []
    ensures a in attrs && forall b | b in attrs :: gain(examples, b) <= gain(examples, a)
  {
    var k := BestIndex(examples, attrs, gain, |attrs|);
    assert forall b | b in attrs :: exists j | 0 <= j < |attrs| :: attrs[j] == b;
    attrs[k]
  }

  /** `[a for a in attributes if a != best_attribute]`. */
  function Remove(attrs: seq<string>, a: string): (r: seq<string>)
    ensures forall x {:trigger x in r} :: x in r <==> x in attrs && x != a
    ensures |r| <= |attrs| && (a in attrs ==> |r| < |attrs|)
  {
    if attrs == [] then []
    else (if attrs[0] == a then [] else [attrs[0]]) + Remove(attrs[1..], a)
  }

  /** A list without its repeats, each value where it first occurs. */
  function Dedup(s: seq<string>): (r: seq<string>)
    ensures forall x :: x in r <==> x in s
    ensures forall i, j | 0 <= i < j < |r| :: r[i] != r[j]
    ensures |r| <= |s|
  {
    if s == [] then []
    else
      var r := Dedup(s[..|s| - 1]);
      assert forall x :: x in s <==> x in s[..|s| - 1] || x == s[|s| - 1];
      if s[|s| - 1] in r then r else r + [s[|s| - 1]]
  }

  /** `set(e[best_attribute] for e in examples)`, listed in the order of
      first occurrence. */
  function Values(examples: seq<Example>, a: string): (r: seq<string>)
    requires forall e | e in examples :: a in e
    ensures forall e | e in examples :: e[a] in r
    ensures forall v | v in r :: exists e | e in examples :: e[a] == v
    ensures forall i, j | 0 <= i < j < |r| :: r[i] != r[j]
  {
    var column := seq(|examples|, i requires 0 <= i < |examples| => examples[i][a]);
    assert forall v :: v in column <==> exists e | e in examples :: e[a] == v by {
      forall v | v in column ensures exists e | e in examples :: e[a] == v {
        var i :| 0 <= i < |column| && column[i] == v;
        assert examples[i] in examples;
      }
      forall v | exists e | e in examples :: e[a] == v ensures v in column {
        var e :| e in examples && e[a] == v;
        var i :| 0 <= i < |examples| && examples[i] == e;
        assert column[i] == v;
      }
    }
    Dedup(column)
  }

  /** `[e for e in examples if e[best_attribute] == value]`. */
  function Subset(examples: seq<Example>, a: string, v: string): (r: seq<Example>)
    requires forall e | e in examples :: a in e
    ensures forall e {:trigger e in r} :: e in r <==> e in examples && e[a] == v
    ensures |r| <= |examples|
  {
    if examples == [] then []
    else (if examples[0][a] == v then [examples[0]] else []) + Subset(examples[1..], a, v)
  }

  // ---------------------------------------------------------------------
  // build_tree
  // ---------------------------------------------------------------------

  /** `build_tree(examples, attributes, label_key, parent_examples)`. The
      branches are listed in the order the values first occur; the source
      iterates a set, whose order Python leaves open. With no examples the
      parent's examples must be given, or `majority_class(None, …)` raises.
      Every example holds the label; the attributes are read only once the
      labels disagree, and then each must be a field of every example. */
  function BuildTree(examples: seq<Example>, attrs: seq<string>, key: string, gain: Gain, parent: Option<seq<Example>>): Tree
    requires Labelled(examples, key)
    requires examples != [] && !Uniform(examples, key) ==> Complete(examples, attrs, key)
    requires examples == [] ==> parent.Some? && Labelled(parent.value, key)
    decreases |attrs|, 0
  {
    if examples == [] then Leaf(Majority(parent.value, key))
    else if Uniform(examples, key) then Leaf(examples[0][key])
    else if attrs == [] then Leaf(Majority(examples, key))
    else
      var best := Best(examples, attrs, gain);
      if gain(examples, best) <= 0.0 then Leaf(Majority(examples, key))
      else
        Node(best, Majority(examples, key), Grow(examples, best, Values(examples, best), Remove(attrs, best), key, gain))
  }

  /** `branches[value] = build_tree(subset, remaining_attributes, label_key,
      examples)` for each value in turn. */
  function Grow(examples: seq<Example>, a: string, values: seq<string>, rest: seq<string>, key: string, gain: Gain): (bs: seq<Branch>)
    requires Complete(examples, rest, key) && forall e | e in examples :: a in e
    ensures |bs| == |values|
    ensures forall k | 0 <= k < |values| :: bs[k].value == values[k]
    decreases |rest|, 1, |values|
  {
    if values == [] then []
    else [Branch(values[0], BuildTree(Subset(examples, a, values[0]), rest, key, gain, Some(examples)))]
         + Grow(examples, a, values[1..], rest, key, gain)
  }

  /** The branch for the k-th value is grown from exactly the examples with
      that value, without the tested attribute, with the node's examples as
      the parent's. */
  lemma {:induction false} GrowSubtree(examples: seq<Example>, a: string, values: seq<string>, rest: seq<string>,
                                       key: string, gain: Gain, k: nat)
    requires Complete(examples, rest, key) && forall e | e in examples :: a in e
    requires k < |values|
    ensures Grow(examples, a, values, rest, key, gain)[k].subtree
            == BuildTree(Subset(examples, a, values[k]), rest, key, gain, Some(examples))
    decreases k
  {
    if k > 0 {
      GrowSubtree(examples, a, values[1..], rest, key, gain, k - 1);
    }
  }

  /** The tree is a leaf exactly in the four cases of the source: no
      examples (the parent's majority), one outcome throughout (that outcome),
      no attributes left, or no positive gain (the majority). */
  lemma BuildLeaves(examples: seq<Example>, attrs: seq<string>, key: string, gain: Gain, parent: Option<seq<Example>>)
    requires Complete(examples, attrs, key)
    requires examples == [] ==> parent.Some? && Labelled(parent.value, key)
    ensures var t := BuildTree(examples, attrs, key, gain, parent);
      && (examples == [] ==> t == Leaf(Majority(parent.value, key)))
      && (examples != [] && (forall e | e in examples :: e[key] == examples[0][key]) ==> t == Leaf(examples[0][key]))
      && (t.Leaf? <==> examples == [] || Uniform(examples, key) || attrs == [] || gain(examples, Best(examples, attrs, gain)) <= 0.0)
      && (t.Leaf? && examples != [] && !Uniform(examples, key) ==> t.outcome == Majority(examples, key))
  {
    if examples != [] && forall e | e in examples :: e[key] == examples[0][key] {
      assert Uniform(examples, key);
    }
  }

  /** An internal node tests an attribute of highest gain among `attrs`,
      which is positive, and keeps the majority of its examples. */
  lemma BuildNode(examples: seq<Example>, attrs: seq<string>, key: string, gain: Gain, parent: Option<seq<Example>>)
    requires Complete(examples, attrs, key)
    requires examples == [] ==> parent.Some? && Labelled(parent.value, key)
    requires BuildTree(examples, attrs, key, gain, parent).Node?
    ensures var t := BuildTree(examples, attrs, key, gain, parent);
      && t.attribute in attrs && 0.0 < gain(examples, t.attribute)
      && (forall b | b in attrs :: gain(examples, b) <= gain(examples, t.attribute))
      && t.majority == Majority(examples, key)
  {
    NodeShape(examples, attrs, key, gain, parent);
  }

  /** The values a node's branches are keyed by, in order. */
  function Keys(bs: seq<Branch>): (r: seq<string>)
    ensures |r| == |bs| && forall k | 0 <= k < |bs| :: r[k] == bs[k].value
  {
    if bs == [] then [] else [bs[0].value] + Keys(bs[1..])
  }

  /** A node has one branch per value of its attribute among the examples,
      each value once. (By `NodeShape` and `GrowSubtree`, the branch for v is
      grown from exactly the examples whose value is v, without the tested
      attribute, with these examples as the parent's.) */
  lemma BuildBranches(examples: seq<Example>, attrs: seq<string>, key: string, gain: Gain, parent: Option<seq<Example>>)
    requires Complete(examples, attrs, key)
    requires examples == [] ==> parent.Some? && Labelled(parent.value, key)
    requires BuildTree(examples, attrs, key, gain, parent).Node?
    ensures var t := BuildTree(examples, attrs, key, gain, parent);
      && (forall e | e in examples :: e[t.attribute] in Keys(t.branches))
      && (forall v | v in Keys(t.branches) :: exists e | e in examples :: e[t.attribute] == v)
      && (forall j, k | 0 <= j < k < |t.branches| :: t.branches[j].value != t.branches[k].value)
  {
    NodeShape(examples, attrs, key, gain, parent);
    var t := BuildTree(examples, attrs, key, gain, parent);
    assert Keys(t.branches) == Values(examples, t.attribute);
  }

  /** One unfolding of an internal node. */
  lemma NodeShape(examples: seq<Example>, attrs: seq<string>, key: string, gain: Gain, parent: Option<seq<Example>>)
    requires Complete(examples, attrs, key)
    requires examples == [] ==> parent.Some? && Labelled(parent.value, key)
    requires BuildTree(examples, attrs, key, gain, parent).Node?
    ensures var t := BuildTree(examples, attrs, key, gain, parent);
      && examples != [] && t.attribute == Best(examples, attrs, gain) && 0.0 < gain(examples, t.attribute)
      && t.majority == Majority(examples, key)
      && t.branches == Grow(examples, t.attribute, Values(examples, t.attribute), Remove(attrs, t.attribute), key, gain)
  {
  }

  /** Every internal node tests an attribute of `attrs`, and its subtrees
      test only the others. */
  ghost predicate TestsFrom(t: Tree, attrs: seq<string>)
    decreases t
  {
    match t
    case Leaf(_) => true
    case Node(a, _, bs) => a in attrs && forall k | 0 <= k < |bs| :: TestsFrom(bs[k].subtree, Remove(attrs, a))
  }

  /** Every path from the root passes at most `d` internal nodes. */
  ghost predicate DepthAtMost(t: Tree, d: int)
    decreases t
  {
    match t
    case Leaf(_) => true
    case Node(_, _, bs) => d >= 1 && forall k | 0 <= k < |bs| :: DepthAtMost(bs[k].subtree, d - 1)
  }

  /** No attribute is tested twice on a path. */
  lemma {:induction false} BuildTests(examples: seq<Example>, attrs: seq<string>, key: string, gain: Gain, parent: Option<seq<Example>>)
    requires Complete(examples, attrs, key)
    requires examples == [] ==> parent.Some? && Labelled(parent.value, key)
    ensures TestsFrom(BuildTree(examples, attrs, key, gain, parent), attrs)
    decreases |attrs|
  {
    var t := BuildTree(examples, attrs, key, gain, parent);
    if t.Node? {
      BuildNode(examples, attrs, key, gain, parent);
      NodeShape(examples, attrs, key, gain, parent);
      var values, rest := Values(examples, t.attribute), Remove(attrs, t.attribute);
      forall k | 0 <= k < |t.branches| ensures TestsFrom(t.branches[k].subtree, rest) {
        GrowSubtree(examples, t.attribute, values, rest, key, gain, k);
        BuildTests(Subset(examples, t.attribute, values[k]), rest, key, gain, Some(examples));
      }
    }
  }

  /** A tree that tests each attribute at most once on a path is no deeper
      than the number of attributes. */
  lemma {:induction false} TestsDepth(t: Tree, attrs: seq<string>)
    requires TestsFrom(t, attrs)
    ensures DepthAtMost(t, |attrs|)
    decreases t
  {
    if t.Node? {
      forall k | 0 <= k < |t.branches| ensures DepthAtMost(t.branches[k].subtree, |attrs| - 1) {
        TestsDepth(t.branches[k].subtree, Remove(attrs, t.attribute));
        DepthMonotone(t.branches[k].subtree, |Remove(attrs, t.attribute)|, |attrs| - 1);
      }
    }
  }

  lemma {:induction false} DepthMonotone(t: Tree, d: int, d': int)
    requires DepthAtMost(t, d) && d <= d'
    ensures DepthAtMost(t, d')
    decreases t
  {
    if t.Node? {
      forall k | 0 <= k < |t.branches| ensures DepthAtMost(t.branches[k].subtree, d' - 1) {
        DepthMonotone(t.branches[k].subtree, d - 1, d' - 1);
      }
    }
  }

  /** The tree is no deeper than the number of attributes. */
  lemma BuildDepth(examples: seq<Example>, attrs: seq<string>, key: string, gain: Gain, parent: Option<seq<Example>>)
    requires Complete(examples, attrs, key)
    requires examples == [] ==> parent.Some? && Labelled(parent.value, key)
    ensures DepthAtMost(BuildTree(examples, attrs, key, gain, parent), |attrs|)
  {
    BuildTests(examples, attrs, key, gain, parent);
    TestsDepth(BuildTree(examples, attrs, key, gain, parent), attrs);
  }

  // ---------------------------------------------------------------------
  // predict
  // ---------------------------------------------------------------------

  /** The position of the branch for value v. */
  function FindBranch(bs: seq<Branch>, v: string): (k: Option<nat>)
    ensures k.Some? ==> k.value < |bs| && bs[k.value].value == v
    ensures k.None? <==> forall i | 0 <= i < |bs| :: bs[i].value != v
  {
    if bs == [] then None
    else if bs[0].value == v then Some(0)
    else
      var k := FindBranch(bs[1..], v);
      if k.Some? then Some(k.value + 1) else None
  }

  /** `predict(tree, instance)`: the outcome of a leaf; at a node, the branch
      for the instance's value of the tested attribute, or the node's
      majority when the instance has no such field or no branch has that
      value. */
  function Predict(t: Tree, instance: Example): string
    decreases t
  {
    match t
    case Leaf(outcome) => outcome
    case Node(a, majority, bs) =>
      if a in instance && FindBranch(bs, instance[a]).Some? then
        Predict(bs[FindBranch(bs, instance[a]).value].subtree, instance)
      else majority
  }

  /** At a node, the prediction is the one of the subtree whose branch holds
      the instance's value of the tested attribute, when there is such a
      branch, and the node's majority otherwise. */
  lemma PredictMeaning(t: Tree, instance: Example)
    requires t.Node?
    ensures forall k | 0 <= k < |t.branches| && t.attribute in instance && t.branches[k].value == instance[t.attribute]
              && (forall j | 0 <= j < k :: t.branches[j].value != t.branches[k].value) ::
              Predict(t, instance) == Predict(t.branches[k].subtree, instance)
    ensures (t.attribute !in instance || forall k | 0 <= k < |t.branches| :: t.branches[k].value != instance[t.attribute])
            ==> Predict(t, instance) == t.majority
  {
    if t.attribute in instance {
      var f := FindBranch(t.branches, instance[t.attribute]);
      forall k | 0 <= k < |t.branches| && t.branches[k].value == instance[t.attribute]
                 && (forall j | 0 <= j < k :: t.branches[j].value != t.branches[k].value)
        ensures Predict(t, instance) == Predict(t.branches[k].subtree, instance)
      {
        FindFirst(t.branches, instance[t.attribute], k);
      }
    }
  }

  /** The branch found for v is the first whose value is v. */
  lemma {:induction false} FindFirst(bs: seq<Branch>, v: string, k: nat)
    requires k < |bs| && bs[k].value == v && forall j | 0 <= j < k :: bs[j].value != v
    ensures FindBranch(bs, v) == Some(k)
  {
    if k > 0 {
      FindFirst(bs[1..], v, k - 1);
    }
  }

  /** Every leaf outcome and every majority of the tree is in `labels`. */
  ghost predicate LabelsWithin(t: Tree, labels: set<string>)
    decreases t
  {
    match t
    case Leaf(outcome) => outcome in labels
    case Node(_, majority, bs) => majority in labels && forall k | 0 <= k < |bs| :: LabelsWithin(bs[k].subtree, labels)
  }

  /** A prediction is one of the labels the tree holds. */
  lemma {:induction false} PredictWithin(t: Tree, labels: set<string>, instance: Example)
    requires LabelsWithin(t, labels)
    ensures Predict(t, instance) in labels
    decreases t
  {
    if t.Node? && t.attribute in instance && FindBranch(t.branches, instance[t.attribute]).Some? {
      PredictWithin(t.branches[FindBranch(t.branches, instance[t.attribute]).value].subtree, labels, instance);
    }
  }

  lemma {:induction false} LabelsGrow(t: Tree, labels: set<string>, labels': set<string>)
    requires LabelsWithin(t, labels) && labels <= labels'
    ensures LabelsWithin(t, labels')
    decreases t
  {
    if t.Node? {
      forall k | 0 <= k < |t.branches| ensures LabelsWithin(t.branches[k].subtree, labels') {
        LabelsGrow(t.branches[k].subtree, labels, labels');
      }
    }
  }

  /** The labels the examples carry. */
  function LabelsOf(examples: seq<Example>, key: string): (r: set<string>)
    requires Labelled(examples, key)
    ensures forall e | e in examples :: e[key] in r
    ensures forall l | l in r :: exists e | e in examples :: e[key] == l
  {
    set e | e in examples :: e[key]
  }

  /** A grown tree holds only "yes", "no" and labels of its examples. */
  lemma {:induction false} BuildLabels(examples: seq<Example>, attrs: seq<string>, key: string, gain: Gain, parent: Option<seq<Example>>)
    requires Complete(examples, attrs, key)
    requires examples == [] ==> parent.Some? && Labelled(parent.value, key)
    ensures LabelsWithin(BuildTree(examples, attrs, key, gain, parent), {"yes", "no"} + LabelsOf(examples, key))
    decreases |attrs|, 1
  {
    var t := BuildTree(examples, attrs, key, gain, parent);
    if t.Leaf? {
      LeafLabel(examples, attrs, key, gain, parent);
    } else {
      NodeShape(examples, attrs, key, gain, parent);
      MajorityMeaning(examples, key);
      forall k | 0 <= k < |t.branches| ensures LabelsWithin(t.branches[k].subtree, {"yes", "no"} + LabelsOf(examples, key)) {
        BranchLabels(examples, attrs, key, gain, parent, k);
      }
    }
  }

  /** The k-th subtree of a grown node holds only "yes", "no" and labels of
      the node's examples. */
  lemma {:induction false} BranchLabels(examples: seq<Example>, attrs: seq<string>, key: string, gain: Gain,
                                        parent: Option<seq<Example>>, k: nat)
    requires Complete(examples, attrs, key)
    requires examples == [] ==> parent.Some? && Labelled(parent.value, key)
    requires BuildTree(examples, attrs, key, gain, parent).Node?
    requires k < |BuildTree(examples, attrs, key, gain, parent).branches|
    ensures LabelsWithin(BuildTree(examples, attrs, key, gain, parent).branches[k].subtree,
                         {"yes", "no"} + LabelsOf(examples, key))
    decreases |attrs|, 0
  {
    NodeShape(examples, attrs, key, gain, parent);
    var t := BuildTree(examples, attrs, key, gain, parent);
    var values, rest := Values(examples, t.attribute), Remove(attrs, t.attribute);
    var sub := Subset(examples, t.attribute, values[k]);
    GrowSubtree(examples, t.attribute, values, rest, key, gain, k);
    BuildLabels(sub, rest, key, gain, Some(examples));
    LabelsGrow(t.branches[k].subtree, {"yes", "no"} + LabelsOf(sub, key), {"yes", "no"} + LabelsOf(examples, key));
  }

  /** A leaf holds "yes", "no" or a label of the examples. */
  lemma LeafLabel(examples: seq<Example>, attrs: seq<string>, key: string, gain: Gain, parent: Option<seq<Example>>)
    requires Complete(examples, attrs, key)
    requires examples == [] ==> parent.Some? && Labelled(parent.value, key)
    requires BuildTree(examples, attrs, key, gain, parent).Leaf?
    ensures BuildTree(examples, attrs, key, gain, parent).outcome in {"yes", "no"} + LabelsOf(examples, key)
  {
    if examples == [] {
      MajorityMeaning(parent.value, key);
    } else {
      MajorityMeaning(examples, key);
      assert examples[0] in examples;
    }
  }

  /** A tree grown from examples predicts "yes", "no" or a label one of
      the examples carries, whatever the instance. */
  lemma PredictLabel(examples: seq<Example>, attrs: seq<string>, key: string, gain: Gain, parent: Option<seq<Example>>,
                     instance: Example)
    requires Complete(examples, attrs, key)
    requires examples == [] ==> parent.Some? && Labelled(parent.value, key)
    ensures var r := Predict(BuildTree(examples, attrs, key, gain, parent), instance);
      r == "yes" || r == "no" || exists e | e in examples :: e[key] == r
  {
    var t := BuildTree(examples, attrs, key, gain, parent);
    BuildLabels(examples, attrs, key, gain, parent);
    PredictWithin(t, {"yes", "no"} + LabelsOf(examples, key), instance);
    LabelOrigin(Predict(t, instance), examples, key);
  }

  /** A label of the set is "yes", "no" or carried by an example. */
  lemma LabelOrigin(r: string, examples: seq<Example>, key: string)
    requires Labelled(examples, key) && r in {"yes", "no"} + LabelsOf(examples, key)
    ensures r == "yes" || r == "no" || exists e | e in examples :: e[key] == r
  {
    if r != "yes" && r != "no" {
      assert r in LabelsOf(examples, key);
    }
  }

  // ---------------------------------------------------------------------
  // count_nodes
  // ---------------------------------------------------------------------

  /** `count_nodes(tree)`: 1 for a leaf, 1 plus the counts of the branches
      for a node. */
  function CountNodes(t: Tree): (n: nat)
    decreases t, 1
  {
    match t
    case Leaf(_) => 1
    case Node(_, _, _) => 1 + CountFrom(t, 0)
  }

  /** The counts of the branches of t from position k on. */
  function CountFrom(t: Tree, k: nat): nat
    requires t.Node? && k <= |t.branches|
    decreases t, 0, |t.branches| - k
  {
    if k == |t.branches| then 0 else CountNodes(t.branches[k].subtree) + CountFrom(t, k + 1)
  }

  /** Every branch from position k on counts in the sum. */
  lemma {:induction false} CountFromCovers(t: Tree, k: nat, j: nat)
    requires t.Node? && k <= j < |t.branches|
    ensures CountNodes(t.branches[j].subtree) <= CountFrom(t, k)
    decreases j - k
  {
    if k < j {
      CountFromCovers(t, k + 1, j);
    }
  }

  /** The count is at least one and at least the depth: no path passes
      more internal nodes than the tree has nodes. */
  lemma {:induction false} CountCoversDepth(t: Tree)
    ensures CountNodes(t) >= 1 && DepthAtMost(t, CountNodes(t))
    decreases t
  {
    if t.Node? {
      forall k | 0 <= k < |t.branches| ensures DepthAtMost(t.branches[k].subtree, CountNodes(t) - 1) {
        CountCoversDepth(t.branches[k].subtree);
        CountFromCovers(t, 0, k);
        DepthMonotone(t.branches[k].subtree, CountNodes(t.branches[k].subtree), CountNodes(t) - 1);
      }
    }
  }

  // ---------------------------------------------------------------------
  // compute_accuracy and leave_one_out_cv
  // ---------------------------------------------------------------------

  /** The number of examples the tree labels correctly. */
  function Correct(t: Tree, examples: seq<Example>, key: string): (n: nat)
    requires Labelled(examples, key)
    decreases |examples|
  {
    if examples == [] then 0
    else
      var last := examples[|examples| - 1];
      Correct(t, examples[..|examples| - 1], key) + (if Predict(t, last) == last[key] then 1 else 0)
  }

  /** The positions of the correctly labelled examples. */
  function Hits(t: Tree, examples: seq<Example>, key: string, n: nat): set<nat>
    requires Labelled(examples, key) && n <= |examples|
  {
    set i: nat | i < n && Predict(t, examples[i]) == examples[i][key]
  }

  /** The count is the number of positions whose example is labelled
      correctly, so it is at most the number of examples. */
  lemma {:induction false} CorrectCounts(t: Tree, examples: seq<Example>, key: string)
    requires Labelled(examples, key)
    ensures Correct(t, examples, key) == |Hits(t, examples, key, |examples|)| <= |examples|
    decreases |examples|
  {
    if examples != [] {
      var n := |examples| - 1;
      assert forall e | e in examples[..n] :: e in examples;
      CorrectCounts(t, examples[..n], key);
      HitsPrefix(t, examples, key, n);
      HitsStep(t, examples, key, n);
      HitsBound(t, examples, key, n + 1);
    }
  }

  /** The hits among the first n examples do not depend on the rest. */
  lemma HitsPrefix(t: Tree, examples: seq<Example>, key: string, n: nat)
    requires Labelled(examples, key) && n <= |examples|
    ensures Labelled(examples[..n], key)
    ensures Hits(t, examples[..n], key, n) == Hits(t, examples, key, n)
  {
    assert forall e | e in examples[..n] :: e in examples;
  }

  /** Example n adds its position to the hits exactly when it is labelled
      correctly. */
  lemma HitsStep(t: Tree, examples: seq<Example>, key: string, n: nat)
    requires Labelled(examples, key) && n < |examples|
    ensures |Hits(t, examples, key, n + 1)|
            == |Hits(t, examples, key, n)| + if Predict(t, examples[n]) == examples[n][key] then 1 else 0
  {
    if Predict(t, examples[n]) == examples[n][key] {
      assert Hits(t, examples, key, n + 1) == Hits(t, examples, key, n) + {n};
    } else {
      assert Hits(t, examples, key, n + 1) == Hits(t, examples, key, n);
    }
  }

  lemma {:induction false} HitsBound(t: Tree, examples: seq<Example>, key: string, n: nat)
    requires Labelled(examples, key) && n <= |examples|
    ensures |Hits(t, examples, key, n)| <= n
    decreases n
  {
    if n > 0 {
      HitsBound(t, examples, key, n - 1);
      assert Hits(t, examples, key, n) <= Hits(t, examples, key, n - 1) + {n - 1};
      SubsetNoLarger(Hits(t, examples, key, n), Hits(t, examples, key, n - 1) + {n - 1});
    }
  }

  /** The share of `correct` out of `total`, in percent. */
  function Percent(correct: nat, total: nat): (p: real)
    requires 0 < total && correct <= total
    ensures 0.0 <= p <= 100.0
    ensures p == 100.0 <==> correct == total
    ensures p == 0.0 <==> correct == 0
  {
    (correct as real / total as real) * 100.0
  }

  /** `compute_accuracy(tree, examples, label_key)`: the percentage of the
      examples whose prediction is their outcome. An empty list divides by
      zero in the source. */
  method ComputeAccuracy(t: Tree, examples: seq<Example>, key: string) returns (accuracy: real)
    requires Labelled(examples, key) && examples != []
    ensures Correct(t, examples, key) <= |examples|
    ensures accuracy == Percent(Correct(t, examples, key), |examples|)
  {
    var correct := 0;
    for i := 0 to |examples|
      invariant correct == Correct(t, examples[..i], key)
    {
      var e := examples[i];
      assert examples[..i + 1][..i] == examples[..i];
      if Predict(t, e) == e[key] {
        correct := correct + 1;
      }
    }
    assert examples[..|examples|] == examples;
    CorrectCounts(t, examples, key);
    accuracy := Percent(correct, |examples|);
  }

  /** `examples[:i] + examples[i+1:]`. */
  function Without(s: seq<Example>, i: nat): (r: seq<Example>)
    requires i < |s|
    ensures |r| == |s| - 1
    ensures forall j | 0 <= j < |r| :: r[j] == if j < i then s[j] else s[j + 1]
    ensures multiset(r) + multiset{s[i]} == multiset(s)
    ensures forall e | e in r :: e in s
  {
    assert s == s[..i] + [s[i]] + s[i + 1..];
    s[..i] + s[i + 1..]
  }

  /** Fold i trains on the others and tests on example i. */
  predicate FoldHits(examples: seq<Example>, attrs: seq<string>, key: string, gain: Gain, i: nat)
    requires Complete(examples, attrs, key) && 2 <= |examples| && i < |examples|
  {
    var training := Without(examples, i);
    Predict(BuildTree(training, attrs, key, gain, None), examples[i]) == examples[i][key]
  }

  /** The number of the folds 0 … n-1 whose test example is labelled
      correctly. */
  function FoldCount(examples: seq<Example>, attrs: seq<string>, key: string, gain: Gain, n: nat): (c: nat)
    requires Complete(examples, attrs, key) && 2 <= |examples| && n <= |examples|
    ensures c <= n
  {
    if n == 0 then 0 else FoldCount(examples, attrs, key, gain, n - 1) + (if FoldHits(examples, attrs, key, gain, n - 1) then 1 else 0)
  }

  /** `leave_one_out_cv(examples, attributes, label_key)`: for each i a
      tree grown from all examples but the i-th predicts the i-th; the
      result is the percentage of right predictions. With a single example
      the fold trains on none and `majority_class(None, …)` raises, and with
      none the division raises, so there are at least two. */
  method LeaveOneOut(examples: seq<Example>, attrs: seq<string>, key: string, gain: Gain) returns (accuracy: real)
    requires Complete(examples, attrs, key) && 2 <= |examples|
    ensures accuracy == Percent(FoldCount(examples, attrs, key, gain, |examples|), |examples|)
  {
    var correct := 0;
    var n := |examples|;
    for i := 0 to n
      invariant correct == FoldCount(examples, attrs, key, gain, i)
    {
      var hit := Fold(examples, attrs, key, gain, i);
      if hit {
        correct := correct + 1;
      }
    }
    accuracy := Percent(correct, n);
  }

  /** One pass of the loop of `leave_one_out_cv`: train on all examples but
      the i-th, then predict the i-th. */
  method Fold(examples: seq<Example>, attrs: seq<string>, key: string, gain: Gain, i: nat) returns (hit: bool)
    requires Complete(examples, attrs, key) && 2 <= |examples| && i < |examples|
    ensures hit == FoldHits(examples, attrs, key, gain, i)
  {
    var training := Without(examples, i);
    var test := examples[i];
    var tree := BuildTree(training, attrs, key, gain, None);
    hit := Predict(tree, test) == test[key];
  }
}
