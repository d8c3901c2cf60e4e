/**
  The Huffman tree and the merging procedure shared by both Huffman coders.

  Both source files build the tree the same way: a list of leaf nodes is
  repeatedly sorted by frequency with the stable built-in sort, the first two
  nodes are taken off the front, and a new node carrying the sum of their
  frequencies (and no symbol) is appended. `SortByFrequency` is that stable
  sort, `Step` one round of it, and `Merge` the whole loop.
*/
module HuffmanTrees {
  import opened Prelude

  /** A node of the tree. Node objects are never changed after construction,
      so the tree is a value: a leaf holds a symbol and its frequency, an
      internal node the combined frequency and its two children. */
  datatype Tree = Leaf(symbol: Byte, weight: nat) | Node(weight: nat, left: Tree, right: Tree)

  /** The symbols at the leaves, with multiplicity. */
  function LeafBag(t: Tree): multiset<Byte>
  {
    match t
    case Leaf(s, _) => multiset{s}
    case Node(_, l, r) => LeafBag(l) + LeafBag(r)
  }

  /** Every internal node's frequency is the sum of its children's. */
  predicate WellFormed(t: Tree)
  {
    match t
    case Leaf(_, _) => true
    case Node(w, l, r) => w == l.weight + r.weight && WellFormed(l) && WellFormed(r)
  }

  /** Every leaf carries a symbol of `table` with that symbol's frequency. */
  predicate LeafWeightsIn(t: Tree, table: map<Byte, nat>)
  {
    match t
    case Leaf(s, w) => s in table && table[s] == w
    case Node(_, l, r) => LeafWeightsIn(l, table) && LeafWeightsIn(r, table)
  }

  /** `t` is a Huffman tree for `table`: frequencies add up at every internal
      node, and the leaves are exactly the symbols of `table`, each once, each
      with its own frequency. */
  ghost predicate IsTreeOver(t: Tree, table: map<Byte, nat>)
  {
    WellFormed(t) && LeafWeightsIn(t, table) &&
    forall b :: LeafBag(t)[b] == (if b in table then 1 else 0)
  }

  /** A list of nodes sorted by ascending frequency. */
  predicate Sorted(s: seq<Tree>)
  {
    forall i, j :: 0 <= i < j < |s| ==> s[i].weight <= s[j].weight
  }

  /** Inserts `x` before the first node that is at least as heavy: `x` stays
      ahead of the nodes of equal frequency, which came after it. */
  function Insert(x: Tree, s: seq<Tree>): (r: seq<Tree>)
    ensures |r| == |s| + 1
  {
    if s == [] || x.weight <= s[0].weight then [x] + s
    else [s[0]] + Insert(x, s[1..])
  }

  /** The stable sort by `a.frequency - b.frequency`. */
  function SortByFrequency(s: seq<Tree>): (r: seq<Tree>)
    ensures |r| == |s|
  {
    if s == [] then [] else Insert(s[0], SortByFrequency(s[1..]))
  }

  /** The index of the first node of least frequency. */
  function FirstLightest(s: seq<Tree>): (i: nat)
    requires |s| > 0
    ensures i < |s|
    ensures forall k :: 0 <= k < |s| ==> s[i].weight <= s[k].weight
    ensures forall k :: 0 <= k < i ==> s[k].weight > s[i].weight
  {
    if |s| == 1 then 0
    else
      var j := FirstLightest(s[1..]);
      if s[0].weight <= s[j + 1].weight then 0 else j + 1
  }

  /** `s` without its element at index `i`. */
  function Remove(s: seq<Tree>, i: nat): seq<Tree>
    requires i < |s|
  {
    s[..i] + s[i + 1..]
  }

  /** One round of the loop: sort, shift off two nodes, push their parent. */
  function Step(nodes: seq<Tree>): (r: seq<Tree>)
    requires |nodes| >= 2
    ensures |r| == |nodes| - 1
  {
    var s := SortByFrequency(nodes);
    s[2..] + [Node(s[0].weight + s[1].weight, s[0], s[1])]
  }

  /** The loop `while (nodes.length > 1)`, run to the end. */
  function Merge(nodes: seq<Tree>): (r: seq<Tree>)
    ensures |r| == if |nodes| == 0 then 0 else 1
    decreases |nodes|
  {
    if |nodes| <= 1 then nodes else Merge(Step(nodes))
  }

  /** The leaves of all nodes of a list. */
  function ForestBag(ts: seq<Tree>): multiset<Byte>
  {
    if ts == [] then multiset{} else LeafBag(ts[0]) + ForestBag(ts[1..])
  }

  /** The summed frequency of all nodes of a list. */
  function ForestWeight(ts: seq<Tree>): nat
  {
    if ts == [] then 0 else ts[0].weight + ForestWeight(ts[1..])
  }

  /** Every node of the list is well formed and draws its leaves from `table`. */
  predicate AllOver(ts: seq<Tree>, table: map<Byte, nat>)
  {
    forall t :: t in ts ==> WellFormed(t) && LeafWeightsIn(t, table)
  }

  // ---------------------------------------------------------------------
  // The sort sorts, keeps the nodes, and is the stable one: it always brings
  // forward the earliest of the lightest nodes.

  lemma {:induction false} InsertPermutes(x: Tree, s: seq<Tree>)
    ensures multiset(Insert(x, s)) == multiset(s) + multiset{x}
  {
    if s != [] && x.weight > s[0].weight {
      InsertPermutes(x, s[1..]);
      assert s == [s[0]] + s[1..];
    }
  }

  lemma {:induction false} InsertSorts(x: Tree, s: seq<Tree>)
    requires Sorted(s)
    ensures Sorted(Insert(x, s))
  {
    if s != [] && x.weight > s[0].weight {
      InsertSorts(x, s[1..]);
      InsertPermutes(x, s[1..]);
      var t := Insert(x, s[1..]);
      assert t[0] in multiset(t);
    }
  }

  /** The sort keeps every node: its result is a permutation of its input. */
  lemma {:induction false} SortPermutes(s: seq<Tree>)
    ensures multiset(SortByFrequency(s)) == multiset(s)
  {
    if s != [] {
      SortPermutes(s[1..]);
      InsertPermutes(s[0], SortByFrequency(s[1..]));
      assert s == [s[0]] + s[1..];
    }
  }

  /** The sort's result is in ascending order of frequency. */
  lemma {:induction false} SortSorts(s: seq<Tree>)
    ensures Sorted(SortByFrequency(s))
  {
    if s != [] {
      SortSorts(s[1..]);
      InsertSorts(s[0], SortByFrequency(s[1..]));
    }
  }

  /** Sorting a sorted list changes nothing. */
  lemma {:induction false} SortSorted(s: seq<Tree>)
    requires Sorted(s)
    ensures SortByFrequency(s) == s
  {
    if s != [] {
      SortSorted(s[1..]);
      assert s == [s[0]] + s[1..];
    }
  }

  /** The sorted list starts with the first of the lightest nodes, and
      continues with the sorted rest: the sort is a repeated selection of the
      earliest minimum, so equal frequencies keep their order. */
  lemma {:induction false} SortPicksFirstLightest(s: seq<Tree>)
    requires |s| > 0
    ensures SortByFrequency(s) == [s[FirstLightest(s)]] + SortByFrequency(Remove(s, FirstLightest(s)))
  {
    if |s| == 1 {
      assert Remove(s, 0) == [];
    } else {
      var rest := s[1..];
      var j := FirstLightest(rest);
      SortPicksFirstLightest(rest);
      if s[0].weight <= rest[j].weight {
        assert FirstLightest(s) == 0 && Remove(s, 0) == rest;
        assert SortByFrequency(s) == Insert(s[0], SortByFrequency(rest));
      } else {
        PicksLightestOfRest(s, j);
      }
    }
  }

  /** The case of `SortPicksFirstLightest` where the head is heavier than
      the first lightest node `j` of the tail: that node moves to the front,
      and the head is inserted into the sorted remainder. */
  lemma {:induction false} PicksLightestOfRest(s: seq<Tree>, j: nat)
    requires |s| >= 2 && j == FirstLightest(s[1..])
    requires SortByFrequency(s[1..]) == [s[1..][j]] + SortByFrequency(Remove(s[1..], j))
    requires s[0].weight > s[1..][j].weight
    ensures SortByFrequency(s) == [s[FirstLightest(s)]] + SortByFrequency(Remove(s, FirstLightest(s)))
  {
    var t := SortByFrequency(s[1..]);
    assert FirstLightest(s) == j + 1;
    InsertAfterLighter(s[0], t);
    RemoveBehindHead(s, j);
  }

  /** Inserting a node heavier than the head of a list keeps that head in
      front. */
  lemma {:induction false} InsertAfterLighter(x: Tree, t: seq<Tree>)
    requires t != [] && x.weight > t[0].weight
    ensures Insert(x, t) == [t[0]] + Insert(x, t[1..])
  {
  }

  /** Removing an element behind the head keeps the head, and sorting the
      result inserts the head into the sorted remainder. */
  lemma {:induction false} RemoveBehindHead(s: seq<Tree>, j: nat)
    requires j + 1 < |s|
    ensures Remove(s, j + 1) == [s[0]] + Remove(s[1..], j)
    ensures SortByFrequency(Remove(s, j + 1)) == Insert(s[0], SortByFrequency(Remove(s[1..], j)))
  {
    var rest := s[1..];
    assert s[..j + 1] == [s[0]] + rest[..j];
    assert s[j + 2..] == rest[j + 1..];
    assert Remove(s, j + 1)[1..] == Remove(rest, j);
  }

  /** Each round merges the two lightest nodes, ties going to the earlier
      node: the left child is the first lightest node, the right child the
      first lightest of the others, and the new node is appended after the
      remaining nodes in sorted order. */
  lemma {:induction false} StepMergesTwoLightest(nodes: seq<Tree>)
    requires |nodes| >= 2
    ensures var i := FirstLightest(nodes);
            var others := Remove(nodes, i);
            var j := FirstLightest(others);
            Step(nodes) == SortByFrequency(Remove(others, j))
                           + [Node(nodes[i].weight + others[j].weight, nodes[i], others[j])]
  {
    var i := FirstLightest(nodes);
    var others := Remove(nodes, i);
    var j := FirstLightest(others);
    var s := SortByFrequency(nodes);
    var t := SortByFrequency(others);
    SortPicksFirstLightest(nodes);
    assert s == [nodes[i]] + t;
    SortPicksFirstLightest(others);
    assert t == [others[j]] + SortByFrequency(Remove(others, j));
    assert s[0] == nodes[i] && s[1] == others[j];
    assert s[2..] == SortByFrequency(Remove(others, j));
  }

  // ---------------------------------------------------------------------
  // What a round keeps: the leaves, the total frequency, and the shape of
  // every node.

  lemma {:induction false} ForestAppend(a: seq<Tree>, b: seq<Tree>)
    ensures ForestBag(a + b) == ForestBag(a) + ForestBag(b)
    ensures ForestWeight(a + b) == ForestWeight(a) + ForestWeight(b)
  {
    if a != [] {
      assert (a + b)[1..] == a[1..] + b;
      ForestAppend(a[1..], b);
    } else {
      assert a + b == b;
    }
  }

  lemma {:induction false} ForestInsert(x: Tree, s: seq<Tree>)
    ensures ForestBag(Insert(x, s)) == LeafBag(x) + ForestBag(s)
    ensures ForestWeight(Insert(x, s)) == x.weight + ForestWeight(s)
  {
    if s == [] || x.weight <= s[0].weight {
      assert ([x] + s)[1..] == s;
    } else {
      ForestInsert(x, s[1..]);
      var t := Insert(x, s[1..]);
      assert ([s[0]] + t)[1..] == t;
    }
  }

  lemma {:induction false} ForestSort(s: seq<Tree>)
    ensures ForestBag(SortByFrequency(s)) == ForestBag(s)
    ensures ForestWeight(SortByFrequency(s)) == ForestWeight(s)
  {
    if s != [] {
      ForestSort(s[1..]);
      ForestInsert(s[0], SortByFrequency(s[1..]));
    }
  }

  /** Replacing the first two nodes of a list by their parent, pushed at
      the end, keeps the leaves. */
  lemma {:induction false} JoinFrontKeepsLeaves(s: seq<Tree>)
    requires |s| >= 2
    ensures ForestBag(s[2..] + [Node(s[0].weight + s[1].weight, s[0], s[1])]) == ForestBag(s)
  {
    var t := s[2..];
    var n := Node(s[0].weight + s[1].weight, s[0], s[1]);
    ForestAppend(t, [n]);
    assert ForestBag([n]) == LeafBag(s[0]) + LeafBag(s[1]) by {
      assert [n][1..] == [];
    }
    assert ForestBag(s[1..]) == LeafBag(s[1]) + ForestBag(t) by {
      assert s[1..][0] == s[1] && s[1..][1..] == t;
    }
    assert ForestBag(s) == LeafBag(s[0]) + ForestBag(s[1..]);
  }

  /** The same replacement keeps the total frequency. */
  lemma {:induction false} JoinFrontKeepsWeight(s: seq<Tree>)
    requires |s| >= 2
    ensures ForestWeight(s[2..] + [Node(s[0].weight + s[1].weight, s[0], s[1])]) == ForestWeight(s)
  {
    var t := s[2..];
    var n := Node(s[0].weight + s[1].weight, s[0], s[1]);
    ForestAppend(t, [n]);
    assert ForestWeight([n]) == s[0].weight + s[1].weight by {
      assert [n][1..] == [];
    }
    assert ForestWeight(s[1..]) == s[1].weight + ForestWeight(t) by {
      assert s[1..][0] == s[1] && s[1..][1..] == t;
    }
  }

  /** A round keeps the leaves and the total frequency. */
  lemma {:induction false} StepKeepsLeaves(nodes: seq<Tree>)
    requires |nodes| >= 2
    ensures ForestBag(Step(nodes)) == ForestBag(nodes)
    ensures ForestWeight(Step(nodes)) == ForestWeight(nodes)
  {
    var s := SortByFrequency(nodes);
    ForestSort(nodes);
    JoinFrontKeepsLeaves(s);
    JoinFrontKeepsWeight(s);
  }

  /** A round builds only well formed nodes over the same table. */
  lemma {:induction false} StepKeepsShape(nodes: seq<Tree>, table: map<Byte, nat>)
    requires |nodes| >= 2
    requires AllOver(nodes, table)
    ensures AllOver(Step(nodes), table)
  {
    var s := SortByFrequency(nodes);
    var n := Node(s[0].weight + s[1].weight, s[0], s[1]);
    SortPermutes(nodes);
    forall t | t in Step(nodes)
      ensures WellFormed(t) && LeafWeightsIn(t, table)
    {
      if t in s[2..] {
        assert t in multiset(s);
      } else {
        assert t == n;
        assert s[0] in multiset(s) && s[1] in multiset(s);
      }
    }
  }

  /** The whole loop keeps the leaves, the total frequency and the shape of
      the nodes; a non-empty list ends as exactly one node. */
  lemma {:induction false} MergePreserves(nodes: seq<Tree>, table: map<Byte, nat>)
    ensures ForestBag(Merge(nodes)) == ForestBag(nodes)
    ensures ForestWeight(Merge(nodes)) == ForestWeight(nodes)
    ensures AllOver(nodes, table) ==> AllOver(Merge(nodes), table)
    decreases |nodes|
  {
    if |nodes| > 1 {
      StepKeepsLeaves(nodes);
      if AllOver(nodes, table) {
        StepKeepsShape(nodes, table);
      }
      MergePreserves(Step(nodes), table);
    }
  }

  /** Sorting the list first does not change what the loop builds. */
  lemma {:induction false} MergeAfterSort(s: seq<Tree>)
    ensures Merge(SortByFrequency(s)) == Merge(s)
  {
    var t := SortByFrequency(s);
    if |s| > 1 {
      SortSorts(s);
      SortSorted(t);
      assert SortByFrequency(t) == t;
      assert Step(t) == Step(s);
    } else if |s| == 1 {
      assert t == Insert(s[0], []);
    } else {
      assert t == [];
    }
  }

  /** A single remaining node is the root of a Huffman tree for `table` when
      the list started as one leaf per symbol of `table`. */
  lemma {:induction false} MergeBuildsTree(nodes: seq<Tree>, table: map<Byte, nat>)
    requires |nodes| > 0
    requires AllOver(nodes, table)
    requires forall b :: ForestBag(nodes)[b] == (if b in table then 1 else 0)
    ensures IsTreeOver(Merge(nodes)[0], table)
    ensures Merge(nodes)[0].weight == ForestWeight(nodes)
  {
    MergePreserves(nodes, table);
    var m := Merge(nodes);
    assert m == [m[0]];
    assert m[0] in m;
    assert ForestBag(m) == LeafBag(m[0]);
  }

  /** A tree has at least one leaf, and an internal node at least two. */
  lemma {:induction false} LeafBagSize(t: Tree)
    ensures |LeafBag(t)| >= 1
    ensures t.Node? ==> |LeafBag(t)| >= 2
  {
    if t.Node? {
      LeafBagSize(t.left);
      LeafBagSize(t.right);
    }
  }
}
