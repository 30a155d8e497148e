/**
 The binary search tree panel: a tree of integer nodes with `Nil` for the
 script's null child, insertion that drops duplicates, the sample tree, and
 the four traversals as pure functions returning the visit sequence.
 */
module BinaryTree {

  datatype Tree = Nil | Node(value: int, left: Tree, right: Tree)

  /** A fresh node with no children, as the tree node constructor builds. */
  function Leaf(v: int): (r: Tree)
    ensures r.Node? && r.value == v && r.left == Nil && r.right == Nil
  {
    Node(v, Nil, Nil)
  }

  /** The values stored in the tree. */
  function Values(t: Tree): set<int> {
    match t
    case Nil => {}
    case Node(v, l, r) => Values(l) + {v} + Values(r)
  }

  /** The values stored in the tree, one per node. */
  function Elements(t: Tree): multiset<int> {
    match t
    case Nil => multiset{}
    case Node(v, l, r) => Elements(l) + multiset{v} + Elements(r)
  }

  function Size(t: Tree): nat {
    match t
    case Nil => 0
    case Node(_, l, r) => Size(l) + 1 + Size(r)
  }

  lemma {:induction false} ElementsAgree(t: Tree)
    ensures forall x :: x in Elements(t) <==> x in Values(t)
    ensures |Elements(t)| == Size(t)
  {
    match t
    case Nil =>
    case Node(_, l, r) =>
      ElementsAgree(l);
      ElementsAgree(r);
  }

  /** Strict search-tree order: every value in a left subtree is smaller
      than the node, every value in a right subtree is larger. */
  predicate IsBST(t: Tree) {
    match t
    case Nil => true
    case Node(v, l, r) =>
      IsBST(l) && IsBST(r)
      && (forall x :: x in Values(l) ==> x < v)
      && (forall x :: x in Values(r) ==> x > v)
  }

  /** Insert below an existing node: smaller values go left, larger go
      right, a new leaf fills the first missing child on the way, and a
      value equal to a node on the path is dropped. */
  function InsertNode(root: Tree, value: int): (r: Tree)
    requires root.Node?
    ensures r.Node? && r.value == root.value
    ensures Values(r) == Values(root) + {value}
  {
    if value < root.value then
      if root.left == Nil then Node(root.value, Leaf(value), root.right)
      else Node(root.value, InsertNode(root.left, value), root.right)
    else if value > root.value then
      if root.right == Nil then Node(root.value, root.left, Leaf(value))
      else Node(root.value, root.left, InsertNode(root.right, value))
    else
      root
  }

  /** Insertion keeps the search-tree order. */
  lemma {:induction false} InsertKeepsBST(root: Tree, value: int)
    requires root.Node? && IsBST(root)
    ensures IsBST(InsertNode(root, value))
  {
    if value < root.value && root.left != Nil {
      InsertKeepsBST(root.left, value);
    } else if value > root.value && root.right != Nil {
      InsertKeepsBST(root.right, value);
    }
  }

  /** Inserting a value a search tree already holds changes nothing. */
  lemma {:induction false} InsertPresent(root: Tree, value: int)
    requires root.Node? && IsBST(root) && value in Values(root)
    ensures InsertNode(root, value) == root
  {
    if value < root.value {
      InsertPresent(root.left, value);
    } else if value > root.value {
      InsertPresent(root.right, value);
    }
  }

  /** Inserting a value the tree does not hold adds exactly one node. */
  lemma {:induction false} InsertAbsent(root: Tree, value: int)
    requires root.Node? && value !in Values(root)
    ensures Elements(InsertNode(root, value)) == Elements(root) + multiset{value}
  {
    var r := InsertNode(root, value);
    if value < root.value {
      if root.left != Nil {
        InsertAbsent(root.left, value);
      }
      GrowLeft(root.value, root.left, r.left, root.right, value);
    } else if value > root.value {
      if root.right != Nil {
        InsertAbsent(root.right, value);
      }
      GrowRight(root.value, root.left, root.right, r.right, value);
    }
  }

  /** One more value in the left subtree is one more value in the tree. */
  lemma GrowLeft(v: int, l: Tree, l': Tree, r: Tree, x: int)
    requires Elements(l') == Elements(l) + multiset{x}
    ensures Elements(Node(v, l', r)) == Elements(Node(v, l, r)) + multiset{x}
  {
    assert Elements(Node(v, l', r)) == Elements(l) + multiset{x} + multiset{v} + Elements(r);
  }

  /** One more value in the right subtree is one more value in the tree. */
  lemma GrowRight(v: int, l: Tree, r: Tree, r': Tree, x: int)
    requires Elements(r') == Elements(r) + multiset{x}
    ensures Elements(Node(v, l, r')) == Elements(Node(v, l, r)) + multiset{x}
  {
  }

  /** Adding a node from the panel: an empty tree becomes a single leaf,
      otherwise the value is inserted below the root. */
  function AddTreeNode(tree: Tree, value: int): (r: Tree)
    ensures r.Node?
    ensures Values(r) == Values(tree) + {value}
    ensures IsBST(tree) ==> IsBST(r)
    ensures IsBST(tree) && value in Values(tree) ==> r == tree
    ensures value !in Values(tree) ==> Elements(r) == Elements(tree) + multiset{value}
  {
    if tree == Nil then Leaf(value)
    else
      assert IsBST(tree) ==> IsBST(InsertNode(tree, value)) by {
        if IsBST(tree) {
          InsertKeepsBST(tree, value);
        }
      }
      assert IsBST(tree) && value in Values(tree) ==> InsertNode(tree, value) == tree by {
        if IsBST(tree) && value in Values(tree) {
          InsertPresent(tree, value);
        }
      }
      assert value !in Values(tree) ==> Elements(InsertNode(tree, value)) == Elements(tree) + multiset{value} by {
        if value !in Values(tree) {
          InsertAbsent(tree, value);
        }
      }
      InsertNode(tree, value)
  }

  /** Insert the values left to right below an existing root. */
  function InsertAll(root: Tree, values: seq<int>): (r: Tree)
    requires root.Node?
    ensures r.Node? && r.value == root.value
    ensures Values(r) == Values(root) + set x | x in values
    decreases |values|
  {
    if |values| == 0 then root
    else
      var r := InsertAll(InsertNode(root, values[0]), values[1..]);
      assert (set x | x in values) == {values[0]} + set x | x in values[1..];
      r
  }

  lemma {:induction false} InsertAllKeepsBST(root: Tree, values: seq<int>)
    requires root.Node? && IsBST(root)
    ensures IsBST(InsertAll(root, values))
    decreases |values|
  {
    if |values| > 0 {
      InsertKeepsBST(root, values[0]);
      InsertAllKeepsBST(InsertNode(root, values[0]), values[1..]);
    }
  }

  const SampleValues: seq<int> := [30, 70, 20, 40, 60, 80, 10, 25, 35, 45]

  /** The sample tree: root 50 with ten values inserted in a fixed order. */
  function GenerateSampleTree(): (r: Tree)
    ensures r.Node? && IsBST(r) && r.value == 50
    ensures Values(r) == {50} + set x | x in SampleValues
  {
    InsertAllKeepsBST(Leaf(50), SampleValues);
    InsertAll(Leaf(50), SampleValues)
  }

  /** Left subtree, node, right subtree. */
  function Inorder(t: Tree): (r: seq<int>)
    ensures multiset(r) == Elements(t) && |r| == Size(t)
    ensures t.Node? ==> r[Size(t.left)] == t.value
  {
    match t
    case Nil => []
    case Node(v, l, rt) => Inorder(l) + [v] + Inorder(rt)
  }

  /** Node, left subtree, right subtree. */
  function Preorder(t: Tree): (r: seq<int>)
    ensures multiset(r) == Elements(t) && |r| == Size(t)
    ensures t.Node? ==> r[0] == t.value
  {
    match t
    case Nil => []
    case Node(v, l, rt) => [v] + Preorder(l) + Preorder(rt)
  }

  /** Left subtree, right subtree, node. */
  function Postorder(t: Tree): (r: seq<int>)
    ensures multiset(r) == Elements(t) && |r| == Size(t)
    ensures t.Node? ==> r[|r| - 1] == t.value
  {
    match t
    case Nil => []
    case Node(v, l, rt) => Postorder(l) + Postorder(rt) + [v]
  }

  predicate Increasing(s: seq<int>) {
    forall i, j :: 0 <= i < j < |s| ==> s[i] < s[j]
  }

  lemma IncreasingAround(a: seq<int>, v: int, b: seq<int>)
    ensures Increasing(a + [v] + b) <==>
      Increasing(a) && Increasing(b) && (forall x :: x in a ==> x < v) && (forall x :: x in b ==> x > v)
  {
    if Increasing(a + [v] + b) {
      IncreasingSplit(a, v, b);
    }
    if Increasing(a) && Increasing(b) && (forall x :: x in a ==> x < v) && (forall x :: x in b ==> x > v) {
      IncreasingJoin(a, v, b);
    }
  }

  /** The parts of an increasing sequence around `v` are increasing and lie
      on either side of it. */
  lemma IncreasingSplit(a: seq<int>, v: int, b: seq<int>)
    requires Increasing(a + [v] + b)
    ensures Increasing(a) && Increasing(b) && (forall x :: x in a ==> x < v) && (forall x :: x in b ==> x > v)
  {
    var s := a + [v] + b;
    assert forall i :: 0 <= i < |a| ==> s[i] == a[i];
    assert forall i :: 0 <= i < |b| ==> s[|a| + 1 + i] == b[i];
    assert s[|a|] == v;
    forall x | x in a ensures x < v {
      var i :| 0 <= i < |a| && a[i] == x;
    }
    forall x | x in b ensures x > v {
      var i :| 0 <= i < |b| && b[i] == x;
      assert s[|a| + 1 + i] == x;
    }
  }

  /** Increasing parts on either side of `v` make an increasing whole. */
  lemma IncreasingJoin(a: seq<int>, v: int, b: seq<int>)
    requires Increasing(a) && Increasing(b) && (forall x :: x in a ==> x < v) && (forall x :: x in b ==> x > v)
    ensures Increasing(a + [v] + b)
  {
    var s := a + [v] + b;
    forall i, j | 0 <= i < j < |s|
      ensures s[i] < s[j]
    {
      if j < |a| {
        assert s[i] == a[i] && s[j] == a[j];
      } else if i < |a| {
        assert s[i] == a[i] && s[i] in a;
        if j > |a| {
          assert s[j] == b[j - |a| - 1] && s[j] in b;
        }
      } else if i > |a| {
        assert s[i] == b[i - |a| - 1] && s[j] == b[j - |a| - 1];
      } else {
        assert s[j] == b[j - |a| - 1] && s[j] in b;
      }
    }
  }

  /** A tree is a search tree exactly when its inorder sequence is strictly
      increasing. */
  lemma {:induction false} BSTIffInorderIncreasing(t: Tree)
    ensures IsBST(t) <==> Increasing(Inorder(t))
  {
    match t
    case Nil =>
    case Node(v, l, r) =>
      BSTIffInorderIncreasing(l);
      BSTIffInorderIncreasing(r);
      InorderValues(l);
      InorderValues(r);
      IncreasingAround(Inorder(l), v, Inorder(r));
  }

  /** Two strictly increasing sequences with the same values are equal. */
  lemma {:induction false} IncreasingUnique(a: seq<int>, b: seq<int>)
    requires Increasing(a) && Increasing(b)
    requires forall x :: x in a <==> x in b
    ensures a == b
    decreases |a|
  {
    SameValuesBothEmpty(a, b);
    if |a| > 0 {
      assert a[0] in b && b[0] in a;
      assert a[0] == b[0];
      forall x
        ensures x in a[1..] <==> x in b[1..]
      {
        if x in a[1..] {
          assert x in a && x > a[0];
        }
        if x in b[1..] {
          assert x in b && x > b[0];
        }
      }
      IncreasingUnique(a[1..], b[1..]);
      assert a == [a[0]] + a[1..] && b == [b[0]] + b[1..];
    }
  }

  lemma SameValuesBothEmpty(a: seq<int>, b: seq<int>)
    requires forall x :: x in a <==> x in b
    ensures |a| == 0 <==> |b| == 0
  {
    if |a| > 0 {
      var x := a[0];
      assert x in a;
      assert x in b;
    }
    if |b| > 0 {
      var x := b[0];
      assert x in b;
      assert x in a;
    }
  }

  /** A search tree's inorder sequence is the ascending list of its values. */
  lemma InorderIsAscendingValues(t: Tree, ascending: seq<int>)
    requires IsBST(t) && Increasing(ascending)
    requires forall x :: x in ascending <==> x in Values(t)
    ensures Inorder(t) == ascending
  {
    BSTIffInorderIncreasing(t);
    InorderValues(t);
    IncreasingUnique(Inorder(t), ascending);
  }

  /** Inorder of the sample tree lists its eleven values in ascending order. */
  lemma SampleInorder()
    ensures Inorder(GenerateSampleTree()) == [10, 20, 25, 30, 35, 40, 45, 50, 60, 70, 80]
  {
    var expected := [10, 20, 25, 30, 35, 40, 45, 50, 60, 70, 80];
    SampleAscending(expected);
    SampleValueSet();
    InorderIsAscendingValues(GenerateSampleTree(), expected);
  }

  lemma SampleValueSet()
    ensures Values(GenerateSampleTree()) == {10, 20, 25, 30, 35, 40, 45, 50, 60, 70, 80}
  {
  }

  lemma SampleAscending(expected: seq<int>)
    requires expected == [10, 20, 25, 30, 35, 40, 45, 50, 60, 70, 80]
    ensures Increasing(expected)
  {
    forall i, j | 0 <= i < j < |expected|
      ensures expected[i] < expected[j]
    {
      assert forall k :: 0 <= k < |expected| - 1 ==> expected[k] < expected[k + 1];
      IncreasingStep(expected, i, j);
    }
  }

  lemma {:induction false} IncreasingStep(s: seq<int>, i: int, j: int)
    requires forall k :: 0 <= k < |s| - 1 ==> s[k] < s[k + 1]
    requires 0 <= i < j < |s|
    ensures s[i] < s[j]
    decreases j - i
  {
    if j > i + 1 {
      IncreasingStep(s, i + 1, j);
    }
  }

  /** The in-order sequence holds exactly the tree's values. */
  lemma InorderValues(t: Tree)
    ensures forall x :: x in Inorder(t) <==> x in Values(t)
  {
    ElementsAgree(t);
    assert forall x :: x in Inorder(t) <==> x in multiset(Inorder(t));
  }

  /** The level-order queue holds real nodes only. */
  predicate AllNodes(q: seq<Tree>) {
    forall i :: 0 <= i < |q| ==> q[i].Node?
  }

  /** A child as the queue sees it: pushed only when present. */
  function Present(t: Tree): (r: seq<Tree>)
    ensures AllNodes(r)
  {
    if t.Node? then [t] else []
  }

  /** The children of a node that exist, left first. */
  function Kids(t: Tree): (r: seq<Tree>)
    ensures AllNodes(r)
  {
    match t
    case Nil => []
    case Node(_, l, rt) => Present(l) + Present(rt)
  }

  function SizeSum(q: seq<Tree>): nat {
    if |q| == 0 then 0 else Size(q[0]) + SizeSum(q[1..])
  }

  lemma {:induction false} SizeSumAppend(p: seq<Tree>, q: seq<Tree>)
    ensures SizeSum(p + q) == SizeSum(p) + SizeSum(q)
    decreases |p|
  {
    if |p| > 0 {
      assert (p + q)[0] == p[0];
      assert (p + q)[1..] == p[1..] + q;
      SizeSumAppend(p[1..], q);
    } else {
      assert p + q == q;
    }
  }

  lemma KidsSize(t: Tree)
    requires t.Node?
    ensures SizeSum(Kids(t)) == Size(t) - 1
  {
    SizeSumAppend(Present(t.left), Present(t.right));
    PresentSize(t.left);
    PresentSize(t.right);
  }

  lemma PresentSize(t: Tree)
    ensures SizeSum(Present(t)) == Size(t)
    ensures ForestElements(Present(t)) == Elements(t)
  {
    if t.Node? {
      assert Present(t)[1..] == [];
    }
  }

  /** One dequeue step of level order: drop the head, enqueue its children. */
  function NextQueue(q: seq<Tree>): (r: seq<Tree>)
    requires |q| > 0 && AllNodes(q)
    ensures AllNodes(r) && SizeSum(r) == SizeSum(q) - 1
  {
    KidsSize(q[0]);
    SizeSumAppend(q[1..], Kids(q[0]));
    q[1..] + Kids(q[0])
  }

  /** What the level-order loop visits from a given queue. */
  function QueueVisit(q: seq<Tree>): (r: seq<int>)
    requires AllNodes(q)
    decreases SizeSum(q)
  {
    if |q| == 0 then [] else [q[0].value] + QueueVisit(NextQueue(q))
  }

  function Roots(f: seq<Tree>): (r: seq<int>)
    requires AllNodes(f)
    ensures |r| == |f| && forall i :: 0 <= i < |f| ==> r[i] == f[i].value
  {
    if |f| == 0 then [] else [f[0].value] + Roots(f[1..])
  }

  /** The next level of a forest: every existing child, in order. */
  function Children(f: seq<Tree>): (r: seq<Tree>)
    ensures AllNodes(r)
    ensures AllNodes(f) ==> SizeSum(r) == SizeSum(f) - |f|
  {
    if |f| == 0 then []
    else
      var rest := Children(f[1..]);
      SizeSumAppend(Kids(f[0]), rest);
      assert f[0].Node? ==> SizeSum(Kids(f[0])) == Size(f[0]) - 1 by {
        if f[0].Node? {
          KidsSize(f[0]);
        }
      }
      Kids(f[0]) + rest
  }

  /** Level by level: the roots of the forest left to right, then the next
      level. This is the order a level-order traversal promises. */
  function ByLevels(f: seq<Tree>): seq<int>
    requires AllNodes(f)
    decreases SizeSum(f)
  {
    if |f| == 0 then [] else Roots(f) + ByLevels(Children(f))
  }

  /** Draining a queue whose front is the forest `f` visits the roots of `f`
      first, then what is behind it with the children of `f` appended. */
  lemma {:induction false} QueueFront(f: seq<Tree>, g: seq<Tree>)
    requires AllNodes(f) && AllNodes(g)
    ensures QueueVisit(f + g) == Roots(f) + QueueVisit(g + Children(f))
    decreases |f|
  {
    if |f| > 0 {
      QueueShape(f, g);
      QueueFront(f[1..], g + Kids(f[0]));
      AppendAssoc([f[0].value], Roots(f[1..]), QueueVisit(g + Children(f)));
    } else {
      assert f + g == g;
      assert g + Children(f) == g;
    }
  }

  /** One dequeue from `f + g`: the head of `f` is visited, and the queue
      left is the rest of `f` in front of `g` and the head's children. */
  lemma QueueShape(f: seq<Tree>, g: seq<Tree>)
    requires |f| > 0 && AllNodes(f) && AllNodes(g)
    ensures QueueVisit(f + g) == [f[0].value] + QueueVisit(f[1..] + (g + Kids(f[0])))
    ensures (g + Kids(f[0])) + Children(f[1..]) == g + Children(f)
    ensures Roots(f) == [f[0].value] + Roots(f[1..])
  {
    var q := f + g;
    assert q[0] == f[0];
    DropAppend(f, g);
    AppendAssoc(f[1..], g, Kids(f[0]));
    assert NextQueue(q) == f[1..] + (g + Kids(f[0]));
    AppendAssoc(g, Kids(f[0]), Children(f[1..]));
  }

  lemma AppendAssoc<T>(a: seq<T>, b: seq<T>, c: seq<T>)
    ensures (a + b) + c == a + (b + c)
  {
  }

  lemma DropAppend<T>(a: seq<T>, b: seq<T>)
    requires |a| > 0
    ensures (a + b)[1..] == a[1..] + b
  {
  }

  lemma {:induction false} QueueIsByLevels(f: seq<Tree>)
    requires AllNodes(f)
    ensures QueueVisit(f) == ByLevels(f)
    decreases SizeSum(f)
  {
    if |f| > 0 {
      QueueFront(f, []);
      assert f + [] == f;
      assert [] + Children(f) == Children(f);
      QueueIsByLevels(Children(f));
    }
  }

  /** The elements of every tree in the forest. */
  function ForestElements(f: seq<Tree>): multiset<int> {
    if |f| == 0 then multiset{} else Elements(f[0]) + ForestElements(f[1..])
  }

  lemma {:induction false} ForestElementsAppend(p: seq<Tree>, q: seq<Tree>)
    ensures ForestElements(p + q) == ForestElements(p) + ForestElements(q)
    decreases |p|
  {
    if |p| > 0 {
      assert (p + q)[0] == p[0];
      assert (p + q)[1..] == p[1..] + q;
      ForestElementsAppend(p[1..], q);
    } else {
      assert p + q == q;
    }
  }

  /** Level order from the queue `[root]`, the loop of the traversal: take
      the front node, record its value, enqueue its existing children. */
  method LevelOrderTraversal(root: Tree) returns (sequence: seq<int>)
    ensures root.Node? ==> sequence == ByLevels([root])
    ensures multiset(sequence) == Elements(root)
    ensures root.Node? ==> sequence[0] == root.value
  {
    sequence := [];
    if root == Nil {
      return;
    }
    sequence := DrainQueue([root]);
    QueueIsByLevels([root]);
    RootFirst(root);
    PresentSize(root);
  }

  /** The loop of the level-order traversal, run until the queue empties:
      take the front node, record its value, enqueue its existing children. */
  method DrainQueue(queue0: seq<Tree>) returns (sequence: seq<int>)
    requires AllNodes(queue0)
    ensures sequence == QueueVisit(queue0)
    ensures multiset(sequence) == ForestElements(queue0)
  {
    sequence := [];
    var queue := queue0;
    while |queue| > 0
      invariant AllNodes(queue)
      invariant sequence + QueueVisit(queue) == QueueVisit(queue0)
      invariant multiset(sequence) + ForestElements(queue) == ForestElements(queue0)
      decreases SizeSum(queue)
    {
      DrainVisitStep(sequence, queue, QueueVisit(queue0));
      DrainElementsStep(sequence, queue, ForestElements(queue0));
      sequence := sequence + [queue[0].value];
      queue := NextQueue(queue);
    }
    assert sequence + [] == sequence;
  }

  lemma RootFirst(root: Tree)
    requires root.Node?
    ensures |ByLevels([root])| > 0 && ByLevels([root])[0] == root.value
  {
    assert Roots([root]) == [root.value];
  }

  lemma DrainVisitStep(sequence: seq<int>, queue: seq<Tree>, all: seq<int>)
    requires |queue| > 0 && AllNodes(queue)
    requires sequence + QueueVisit(queue) == all
    ensures (sequence + [queue[0].value]) + QueueVisit(NextQueue(queue)) == all
  {
    var v, next := queue[0].value, NextQueue(queue);
    DequeueStep(queue);
    var rest := QueueVisit(next);
    AppendAssoc(sequence, [v], rest);
  }

  lemma DrainElementsStep(sequence: seq<int>, queue: seq<Tree>, elements: multiset<int>)
    requires |queue| > 0 && AllNodes(queue)
    requires multiset(sequence) + ForestElements(queue) == elements
    ensures multiset(sequence + [queue[0].value]) + ForestElements(NextQueue(queue)) == elements
  {
    var v := queue[0].value;
    DequeueStep(queue);
    assert multiset(sequence + [v]) == multiset(sequence) + multiset{v};
  }

  /** One round of the level-order loop moves the front node's value from
      the queue's elements to the visit sequence. */
  lemma DequeueStep(queue: seq<Tree>)
    requires |queue| > 0 && AllNodes(queue)
    ensures ForestElements(queue) == multiset{queue[0].value} + ForestElements(NextQueue(queue))
    ensures QueueVisit(queue) == [queue[0].value] + QueueVisit(NextQueue(queue))
  {
    var node := queue[0];
    assert queue == [node] + queue[1..];
    ForestElementsAppend([node], queue[1..]);
    ForestElementsAppend(queue[1..], Kids(node));
    KidsElements(node);
    assert [node][1..] == [];
  }

  lemma KidsElements(t: Tree)
    requires t.Node?
    ensures ForestElements(Kids(t)) + multiset{t.value} == Elements(t)
  {
    ForestElementsAppend(Present(t.left), Present(t.right));
    PresentSize(t.left);
    PresentSize(t.right);
  }

  /** The traversal selector of the tree panel; an unknown value, or an
      empty tree, records nothing. */
  method StartTreeTraversal(algorithm: string, tree: Tree) returns (sequence: seq<int>)
    ensures IsTraversalName(algorithm) ==> multiset(sequence) == Elements(tree)
    ensures !IsTraversalName(algorithm) ==> sequence == []
    ensures algorithm == "inorder" ==> sequence == Inorder(tree)
    ensures algorithm == "preorder" ==> sequence == Preorder(tree)
    ensures algorithm == "postorder" ==> sequence == Postorder(tree)
    ensures algorithm == "levelorder" && tree.Node? ==> sequence == ByLevels([tree])
    ensures algorithm == "levelorder" && tree == Nil ==> sequence == []
    ensures algorithm == "inorder" && IsBST(tree) ==> Increasing(sequence)
  {
    if algorithm == "inorder" {
      sequence := Inorder(tree);
      BSTIffInorderIncreasing(tree);
    } else if algorithm == "preorder" {
      sequence := Preorder(tree);
    } else if algorithm == "postorder" {
      sequence := Postorder(tree);
    } else if algorithm == "levelorder" {
      sequence := LevelOrderTraversal(tree);
    } else {
      sequence := [];
    }
  }

  /** The case labels of the traversal selector. */
  predicate IsTraversalName(algorithm: string) {
    algorithm == "inorder" || algorithm == "preorder" || algorithm == "postorder" || algorithm == "levelorder"
  }
}
