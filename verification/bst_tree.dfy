/** A binary search tree that counts duplicate insertions instead of storing
    duplicate nodes (bst/bst.go). Values are integers under their usual strict
    order. Every operation is a pure function from one tree to the next; what
    each promises is stated in the lemmas that follow it. */
module BstTree {

  /** A node holds its value, how many times that value was added, and its
      two children. `Nil` is the absent child (a nil pointer). */
  datatype Tree = Nil | Node(val: int, occurs: nat, left: Tree, right: Tree)

  /** The container: the root and the number of distinct-value nodes. */
  datatype BST = BST(root: Tree, size: nat)

  /** A tree with its occurrence counters forgotten: two trees with the same
      shape hold the same values in the same places. */
  datatype Shape = Leaf | Fork(val: int, left: Shape, right: Shape)

  function ShapeOf(t: Tree): Shape
  {
    match t
    case Nil => Leaf
    case Node(v, _, l, r) => Fork(v, ShapeOf(l), ShapeOf(r))
  }

  function Values(t: Tree): set<int>
  {
    match t
    case Nil => {}
    case Node(v, _, l, r) => Values(l) + {v} + Values(r)
  }

  function NodeCount(t: Tree): nat
  {
    match t
    case Nil => 0
    case Node(_, _, l, r) => NodeCount(l) + 1 + NodeCount(r)
  }

  /** The ordering the descent rule relies on: everything left of a node is
      smaller than it, everything right of it is at least as large. */
  ghost predicate SearchOrdered(t: Tree)
  {
    match t
    case Nil => true
    case Node(v, _, l, r) =>
      && SearchOrdered(l) && SearchOrdered(r)
      && (forall y :: y in Values(l) ==> y < v)
      && (forall y :: y in Values(r) ==> v <= y)
  }

  /** The ordering every reachable tree has: because insertion tests equality
      before descending, no value ever lands in the right subtree of an equal
      one, so the right side is strictly larger too. */
  ghost predicate Ordered(t: Tree)
  {
    match t
    case Nil => true
    case Node(v, _, l, r) =>
      && Ordered(l) && Ordered(r)
      && (forall y :: y in Values(l) ==> y < v)
      && (forall y :: y in Values(r) ==> v < y)
  }

  ghost predicate OccursPositive(t: Tree)
  {
    match t
    case Nil => true
    case Node(_, o, l, r) => o >= 1 && OccursPositive(l) && OccursPositive(r)
  }

  /** The representation invariant kept by every operation of the container. */
  ghost predicate Valid(b: BST)
  {
    Ordered(b.root) && OccursPositive(b.root) && b.size == NodeCount(b.root)
  }

  lemma {:induction false} OrderedIsSearchOrdered(t: Tree)
    requires Ordered(t)
    ensures SearchOrdered(t)
  {
    match t
    case Nil =>
    case Node(_, _, l, r) =>
      OrderedIsSearchOrdered(l);
      OrderedIsSearchOrdered(r);
  }

  /** The subtree rooted at the node the descent stops on when looking for
      `x`: compare for equality first, then go left when `x` is smaller and
      right otherwise. `Nil` when the descent falls off the tree. */
  function Find(t: Tree, x: int): Tree
  {
    match t
    case Nil => Nil
    case Node(v, _, l, r) =>
      if v == x then t else if x < v then Find(l, x) else Find(r, x)
  }

  /** The occurrence counter of `x`, 0 when the descent does not find it. */
  function OccursOf(t: Tree, x: int): nat
  {
    if Find(t, x).Node? then Find(t, x).occurs else 0
  }

  /** One step of the descent, stated on the counters. */
  lemma OccursOfNode(v: int, o: nat, l: Tree, r: Tree, y: int)
    ensures OccursOf(Node(v, o, l, r), y)
         == if y == v then o else if y < v then OccursOf(l, y) else OccursOf(r, y)
  {
  }

  /** On a search-ordered tree the descent finds exactly the values present. */
  lemma {:induction false} FindCorrect(t: Tree, x: int)
    requires SearchOrdered(t)
    ensures Find(t, x).Node? <==> x in Values(t)
    ensures Find(t, x).Node? ==> Find(t, x).val == x
  {
    match t
    case Nil =>
    case Node(v, _, l, r) =>
      if v != x {
        if x < v {
          FindCorrect(l, x);
        } else {
          FindCorrect(r, x);
        }
      }
  }

  /** Whatever the ordering, a node the descent stops on holds `x`. */
  lemma {:induction false} FindInValues(t: Tree, x: int)
    ensures Find(t, x).Node? ==> Find(t, x).val == x && x in Values(t)
  {
    match t
    case Nil =>
    case Node(v, _, l, r) =>
      if v != x {
        if x < v { FindInValues(l, x); } else { FindInValues(r, x); }
      }
  }

  lemma {:induction false} FindCounted(t: Tree, x: int)
    requires OccursPositive(t)
    ensures Find(t, x).Node? ==> Find(t, x).occurs >= 1
  {
    match t
    case Nil =>
    case Node(v, _, l, r) =>
      if v != x {
        if x < v { FindCounted(l, x); } else { FindCounted(r, x); }
      }
  }

  /** A value in a valid tree is counted at least once. */
  lemma PresentIsCounted(b: BST, x: int)
    requires Valid(b) && x in Values(b.root)
    ensures OccursOf(b.root, x) >= 1
  {
    OrderedIsSearchOrdered(b.root);
    FindCorrect(b.root, x);
    FindCounted(b.root, x);
  }

  // ---------------------------------------------------------------- Init

  /** `Init`/`New`: no root, size 0; a valid tree holding no value. */
  function Empty(): (b: BST)
    ensures Valid(b) && Values(b.root) == {}
  {
    BST(Nil, 0)
  }

  // ---------------------------------------------------------------- Add

  /** `createNode`: a leaf seen once, holding exactly `x`. */
  function NewNode(x: int): Tree
  {
    Node(x, 1, Nil, Nil)
  }

  /** The descent of `Add` below an existing root: bump the counter of an
      equal node, or hang a new leaf where the descent falls off. The flag
      says whether a node was created: exactly when the descent fell off the
      tree. Afterwards the descent for `x` stops on a node holding it. */
  function Insert(t: Tree, x: int): (r: (Tree, bool))
    ensures r.1 <==> Find(t, x) == Nil
    ensures Find(r.0, x).Node? && Find(r.0, x).val == x
  {
    match t
    case Nil => (NewNode(x), true)
    case Node(v, o, l, r) =>
      if v == x then (Node(v, o + 1, l, r), false)
      else if x < v then
        var (l', created) := Insert(l, x);
        (Node(v, o, l', r), created)
      else
        var (r', created) := Insert(r, x);
        (Node(v, o, l, r'), created)
  }

  /** `Add`: an empty tree gets a new root; otherwise insert below the root,
      and count the node only when one was created. Afterwards `x` is found,
      and the size grew exactly when it was not found before. */
  function Add(b: BST, x: int): (r: BST)
    ensures Find(r.root, x).Node? && Find(r.root, x).val == x
    ensures r.size == if Find(b.root, x) == Nil then b.size + 1 else b.size
  {
    if b.root == Nil then BST(NewNode(x), b.size + 1)
    else
      var (t, created) := Insert(b.root, x);
      BST(t, if created then b.size + 1 else b.size)
  }

  /** Insertion creates a node exactly when the descent falls off the tree,
      adds `x` to the values, and keeps ordering and positive counters. */
  lemma {:induction false} InsertSpec(t: Tree, x: int)
    ensures Insert(t, x).1 <==> Find(t, x) == Nil
    ensures Values(Insert(t, x).0) == Values(t) + {x}
    ensures NodeCount(Insert(t, x).0) == NodeCount(t) + (if Insert(t, x).1 then 1 else 0)
    ensures Ordered(t) ==> Ordered(Insert(t, x).0)
    ensures OccursPositive(t) ==> OccursPositive(Insert(t, x).0)
  {
    match t
    case Nil =>
    case Node(v, o, l, r) =>
      if v != x {
        if x < v {
          InsertSpec(l, x);
        } else {
          InsertSpec(r, x);
        }
      }
  }

  lemma {:induction false} InsertAbsent(t: Tree, x: int)
    requires Find(t, x) == Nil
    ensures Find(Insert(t, x).0, x) == Node(x, 1, Nil, Nil)
    ensures forall y :: y != x ==> OccursOf(Insert(t, x).0, y) == OccursOf(t, y)
  {
    match t
    case Nil =>
    case Node(v, o, l, r) =>
      if x < v {
        InsertAbsent(l, x);
      } else {
        InsertAbsent(r, x);
      }
      forall y | y != x
        ensures OccursOf(Insert(t, x).0, y) == OccursOf(t, y)
      {
        OccursOfNode(v, o, Insert(t, x).0.left, Insert(t, x).0.right, y);
        OccursOfNode(v, o, l, r, y);
      }
  }

  lemma {:induction false} InsertPresent(t: Tree, x: int)
    requires Find(t, x).Node?
    ensures ShapeOf(Insert(t, x).0) == ShapeOf(t)
    ensures OccursOf(Insert(t, x).0, x) == OccursOf(t, x) + 1
    ensures forall y :: y != x ==> OccursOf(Insert(t, x).0, y) == OccursOf(t, y)
  {
    match t
    case Node(v, o, l, r) =>
      if v != x {
        if x < v {
          InsertPresent(l, x);
        } else {
          InsertPresent(r, x);
        }
        forall y | y != x
          ensures OccursOf(Insert(t, x).0, y) == OccursOf(t, y)
        {
          OccursOfNode(v, o, Insert(t, x).0.left, Insert(t, x).0.right, y);
          OccursOfNode(v, o, l, r, y);
        }
      }
  }

  /** Adding puts `x` among the values and keeps the tree ordered, every
      counter positive, and the size equal to the number of nodes. */
  lemma AddPreservesValid(b: BST, x: int)
    requires Valid(b)
    ensures Valid(Add(b, x))
    ensures Values(Add(b, x).root) == Values(b.root) + {x}
  {
    InsertSpec(b.root, x);
  }

  /** A created node is a valid one-node tree holding just `x`, seen once. */
  lemma NewNodeSpec(x: int)
    ensures Valid(BST(NewNode(x), 1))
    ensures Values(NewNode(x)) == {x}
    ensures OccursOf(NewNode(x), x) == 1
  {
  }

  /** Adding to an empty tree makes a single root seen once. */
  lemma AddToEmpty(x: int)
    ensures Add(Empty(), x) == BST(Node(x, 1, Nil, Nil), 1)
  {
  }

  /** Inserting where the descent falls off and then removing that value
      again, occurrences ignored, gives the tree back. */
  lemma {:induction false} InsertThenRemoveNode(t: Tree, x: int)
    requires Find(t, x) == Nil
    ensures RemoveNode(Insert(t, x).0, x, true) == (t, true)
  {
    match t
    case Nil =>
    case Node(v, o, l, r) =>
      if x < v {
        InsertThenRemoveNode(l, x);
      } else {
        InsertThenRemoveNode(r, x);
      }
  }

  /** Adding an absent value attaches one leaf seen once, counts one more
      node, and leaves every other counter alone. Every existing node stays
      where it was: removing `x` again gives back the very same tree. */
  lemma AddAbsent(b: BST, x: int)
    requires Valid(b) && x !in Values(b.root)
    ensures Add(b, x).size == b.size + 1
    ensures Find(Add(b, x).root, x) == Node(x, 1, Nil, Nil)
    ensures forall y :: y != x ==> OccursOf(Add(b, x).root, y) == OccursOf(b.root, y)
    ensures Valid(Add(b, x))
    ensures Remove(Add(b, x), x, true) == b
  {
    FindInValues(b.root, x);
    InsertSpec(b.root, x);
    InsertAbsent(b.root, x);
    AddPreservesValid(b, x);
    if b.root.Node? {
      InsertThenRemoveNode(b.root, x);
    }
  }

  /** Adding a present value bumps that node's counter only: same shape,
      same size, every other counter unchanged. */
  lemma AddPresent(b: BST, x: int)
    requires Valid(b) && x in Values(b.root)
    ensures Add(b, x).size == b.size
    ensures ShapeOf(Add(b, x).root) == ShapeOf(b.root)
    ensures OccursOf(Add(b, x).root, x) == OccursOf(b.root, x) + 1
    ensures forall y :: y != x ==> OccursOf(Add(b, x).root, y) == OccursOf(b.root, y)
  {
    OrderedIsSearchOrdered(b.root);
    FindCorrect(b.root, x);
    InsertSpec(b.root, x);
    InsertPresent(b.root, x);
  }

  // ---------------------------------------------------------------- Contains

  /** `Contains`: the same descent as `Add`, run as a loop. */
  method Contains(b: BST, x: int) returns (found: bool)
    ensures found <==> Find(b.root, x).Node?
    ensures SearchOrdered(b.root) ==> (found <==> x in Values(b.root))
  {
    var curr := b.root;
    while curr.Node?
      invariant Find(curr, x) == Find(b.root, x)
      invariant SearchOrdered(b.root) ==> SearchOrdered(curr)
      decreases curr
    {
      if curr.val == x {
        FindInValues(b.root, x);
        return true;
      }
      if x < curr.val {
        curr := curr.left;
      } else {
        curr := curr.right;
      }
    }
    if SearchOrdered(b.root) {
      FindCorrect(b.root, x);
    }
    return false;
  }

  // ---------------------------------------------------------------- Remove

  /** The in-order successor step of a full removal: the leftmost value of a
      non-empty subtree, and the subtree with that node replaced by its right
      child. */
  function RemoveMin(t: Tree): (int, Tree)
    requires t.Node?
  {
    if t.left == Nil then (t.val, t.right)
    else
      var (m, l') := RemoveMin(t.left);
      (m, Node(t.val, t.occurs, l', t.right))
  }

  /** The successor is a value of the subtree and, when the subtree is
      ordered, its smallest; it alone leaves the subtree. */
  lemma {:induction false} RemoveMinSpec(t: Tree)
    requires t.Node?
    ensures RemoveMin(t).0 in Values(t)
    ensures NodeCount(RemoveMin(t).1) == NodeCount(t) - 1
    ensures Values(RemoveMin(t).1) <= Values(t)
    ensures Ordered(t) ==> Ordered(RemoveMin(t).1)
    ensures Ordered(t) ==> forall y :: y in Values(t) ==> RemoveMin(t).0 <= y
    ensures Ordered(t) ==> Values(RemoveMin(t).1) == Values(t) - {RemoveMin(t).0}
    ensures OccursPositive(t) ==> OccursPositive(RemoveMin(t).1)
  {
    if t.left != Nil {
      RemoveMinSpec(t.left);
    }
  }

  /** The removal below the root, with every splice done at the node's real
      parent. Found node: decrement its counter when occurrences count and it
      is above 1; otherwise, with two children, overwrite its value with the
      successor's (its counter stays) and splice out the successor; with at
      most one child, replace it by that child. The flag says whether a node
      left the tree: exactly when `x` was found and occurrences are ignored
      or it was seen once. When none left, the shape is unchanged. */
  function RemoveNode(t: Tree, x: int, ignoreOccurs: bool): (r: (Tree, bool))
    ensures r.1 <==> Find(t, x).Node? && (ignoreOccurs || Find(t, x).occurs <= 1)
    ensures !r.1 ==> ShapeOf(r.0) == ShapeOf(t)
  {
    match t
    case Nil => (Nil, false)
    case Node(v, o, l, r) =>
      if v == x then
        if !ignoreOccurs && o > 1 then (Node(v, o - 1, l, r), false)
        else if l.Node? && r.Node? then
          var (s, r') := RemoveMin(r);
          (Node(s, o, l, r'), true)
        else (if l.Node? then l else r, true)
      else if x < v then
        var (l', removed) := RemoveNode(l, x, ignoreOccurs);
        (Node(v, o, l', r), removed)
      else
        var (r', removed) := RemoveNode(r, x, ignoreOccurs);
        (Node(v, o, l, r'), removed)
  }

  /** `Remove(data, ignoreOccurs)` as its documentation describes it: the
      node leaves the tree when occurrences are ignored or it was seen once,
      and the size drops with it. Every splice here is made at the node's real
      parent; the code does otherwise for a non-root node with at most one
      child, which `RemoveAsWritten` models. */
  function Remove(b: BST, x: int, ignoreOccurs: bool): (r: BST)
    requires Valid(b)
    ensures r.size == if Find(b.root, x).Node? && (ignoreOccurs || Find(b.root, x).occurs <= 1)
                      then b.size - 1 else b.size
    ensures r.size == b.size ==> ShapeOf(r.root) == ShapeOf(b.root)
  {
    var (t, removed) := RemoveNode(b.root, x, ignoreOccurs);
    BST(t, if removed then b.size - 1 else b.size)
  }

  /** A departing node is the only one the count loses; ordering and
      positive counters survive; a departing node takes exactly `x` out of an
      ordered tree. */
  lemma {:induction false} RemoveNodeSpec(t: Tree, x: int, ignoreOccurs: bool)
    ensures NodeCount(RemoveNode(t, x, ignoreOccurs).0)
         == NodeCount(t) - (if RemoveNode(t, x, ignoreOccurs).1 then 1 else 0)
    ensures Values(RemoveNode(t, x, ignoreOccurs).0) <= Values(t)
    ensures Ordered(t) ==> Ordered(RemoveNode(t, x, ignoreOccurs).0)
    ensures Ordered(t) && RemoveNode(t, x, ignoreOccurs).1
            ==> Values(RemoveNode(t, x, ignoreOccurs).0) == Values(t) - {x}
    ensures OccursPositive(t) ==> OccursPositive(RemoveNode(t, x, ignoreOccurs).0)
  {
    match t
    case Nil =>
    case Node(v, o, l, r) =>
      if v == x {
        RemoveHereSpec(t, ignoreOccurs);
      } else if x < v {
        RemoveNodeSpec(l, x, ignoreOccurs);
      } else {
        RemoveNodeSpec(r, x, ignoreOccurs);
      }
  }

  /** `RemoveNodeSpec` where the root holds the value. */
  lemma RemoveHereSpec(t: Tree, ignoreOccurs: bool)
    requires t.Node?
    ensures NodeCount(RemoveNode(t, t.val, ignoreOccurs).0)
         == NodeCount(t) - (if RemoveNode(t, t.val, ignoreOccurs).1 then 1 else 0)
    ensures Values(RemoveNode(t, t.val, ignoreOccurs).0) <= Values(t)
    ensures Ordered(t) ==> Ordered(RemoveNode(t, t.val, ignoreOccurs).0)
    ensures Ordered(t) && RemoveNode(t, t.val, ignoreOccurs).1
            ==> Values(RemoveNode(t, t.val, ignoreOccurs).0) == Values(t) - {t.val}
    ensures OccursPositive(t) ==> OccursPositive(RemoveNode(t, t.val, ignoreOccurs).0)
  {
    if !(!ignoreOccurs && t.occurs > 1) && t.left.Node? && t.right.Node? {
      SpliceSuccessorSpec(t);
    }
  }

  /** Overwriting a node with two children by its successor, which leaves
      the right subtree, loses one node and exactly the node's value. */
  lemma SpliceSuccessorSpec(t: Tree)
    requires t.Node? && t.left.Node? && t.right.Node?
    ensures var m := RemoveMin(t.right); var u := Node(m.0, t.occurs, t.left, m.1);
      && NodeCount(u) == NodeCount(t) - 1
      && Values(u) <= Values(t)
      && (Ordered(t) ==> Ordered(u) && Values(u) == Values(t) - {t.val})
      && (OccursPositive(t) ==> OccursPositive(u))
  {
    RemoveMinSpec(t.right);
  }

  /** Every removal keeps the tree ordered, every counter positive, and the
      size equal to the number of nodes, and adds no value. */
  lemma RemovePreservesValid(b: BST, x: int, ignoreOccurs: bool)
    requires Valid(b)
    ensures Valid(Remove(b, x, ignoreOccurs))
    ensures Values(Remove(b, x, ignoreOccurs).root) <= Values(b.root)
  {
    RemoveNodeSpec(b.root, x, ignoreOccurs);
  }

  lemma {:induction false} RemoveNodeAbsent(t: Tree, x: int, ignoreOccurs: bool)
    requires x !in Values(t)
    ensures RemoveNode(t, x, ignoreOccurs) == (t, false)
  {
    match t
    case Nil =>
    case Node(v, o, l, r) =>
      if x < v {
        RemoveNodeAbsent(l, x, ignoreOccurs);
      } else if x > v {
        RemoveNodeAbsent(r, x, ignoreOccurs);
      }
  }

  /** Removing an absent value changes nothing. */
  lemma RemoveAbsent(b: BST, x: int, ignoreOccurs: bool)
    requires Valid(b) && x !in Values(b.root)
    ensures Remove(b, x, ignoreOccurs) == b
  {
    RemoveNodeAbsent(b.root, x, ignoreOccurs);
  }

  lemma {:induction false} RemoveNodeDecrement(t: Tree, x: int)
    requires Find(t, x).Node? && Find(t, x).occurs > 1
    ensures RemoveNode(t, x, false).1 == false
    ensures ShapeOf(RemoveNode(t, x, false).0) == ShapeOf(t)
    ensures OccursOf(RemoveNode(t, x, false).0, x) == OccursOf(t, x) - 1
    ensures forall y :: y != x ==> OccursOf(RemoveNode(t, x, false).0, y) == OccursOf(t, y)
  {
    match t
    case Node(v, o, l, r) =>
      if v != x {
        if x < v {
          RemoveNodeDecrement(l, x);
        } else {
          RemoveNodeDecrement(r, x);
        }
        var t' := RemoveNode(t, x, false).0;
        forall y | y != x
          ensures OccursOf(t', y) == OccursOf(t, y)
        {
          OccursOfNode(v, o, t'.left, t'.right, y);
          OccursOfNode(v, o, l, r, y);
        }
      }
  }

  /** Without `ignoreOccurs`, a value seen more than once loses one
      occurrence: same shape, same size, other counters unchanged. */
  lemma RemoveDecrements(b: BST, x: int)
    requires Valid(b) && OccursOf(b.root, x) > 1
    ensures Remove(b, x, false).size == b.size
    ensures ShapeOf(Remove(b, x, false).root) == ShapeOf(b.root)
    ensures OccursOf(Remove(b, x, false).root, x) == OccursOf(b.root, x) - 1
    ensures forall y :: y != x ==> OccursOf(Remove(b, x, false).root, y) == OccursOf(b.root, y)
  {
    RemoveNodeDecrement(b.root, x);
  }

  /** A full removal (occurrences ignored, or the value seen once) takes the
      value out of the tree and one node off the size. */
  lemma RemoveFull(b: BST, x: int, ignoreOccurs: bool)
    requires Valid(b) && x in Values(b.root)
    requires ignoreOccurs || OccursOf(b.root, x) == 1
    ensures Values(Remove(b, x, ignoreOccurs).root) == Values(b.root) - {x}
    ensures Remove(b, x, ignoreOccurs).size == b.size - 1
  {
    OrderedIsSearchOrdered(b.root);
    FindCorrect(b.root, x);
    RemoveNodeSpec(b.root, x, ignoreOccurs);
  }

  /** `t` with the subtree the descent for `x` stops on replaced by `s`;
      every node on the path down to it, and every subtree hanging off that
      path, stays as it is. */
  function ReplaceAt(t: Tree, x: int, s: Tree): Tree
  {
    match t
    case Nil => s
    case Node(v, o, l, r) =>
      if v == x then s
      else if x < v then Node(v, o, ReplaceAt(l, x, s), r)
      else Node(v, o, l, ReplaceAt(r, x, s))
  }

  /** What a departing node is replaced by: with two children, the node
      overwritten by its successor, which leaves the right subtree; with at
      most one child, that child. */
  function Spliced(n: Tree): Tree
    requires n.Node?
  {
    if n.left.Node? && n.right.Node? then
      Node(RemoveMin(n.right).0, n.occurs, n.left, RemoveMin(n.right).1)
    else if n.left.Node? then n.left
    else n.right
  }

  /** A full removal rewrites only the subtree the descent stops on: the
      splice is made at the departing node's real parent, and the rest of
      the tree is untouched. */
  lemma {:induction false} RemoveNodeSplicesOnlyThere(t: Tree, x: int, ignoreOccurs: bool)
    requires Find(t, x).Node? && (ignoreOccurs || Find(t, x).occurs <= 1)
    ensures RemoveNode(t, x, ignoreOccurs) == (ReplaceAt(t, x, Spliced(Find(t, x))), true)
  {
    match t
    case Node(v, o, l, r) =>
      if v != x {
        if x < v {
          RemoveNodeSplicesOnlyThere(l, x, ignoreOccurs);
        } else {
          RemoveNodeSplicesOnlyThere(r, x, ignoreOccurs);
        }
      }
  }

  /** `RemoveNodeSplicesOnlyThere` on a whole tree: the corrected removal
      replaces the departing node, at its real parent, by `Spliced` of it,
      keeps everything else, and drops `size` by one. */
  lemma RemoveSplicesAtParent(b: BST, x: int, ignoreOccurs: bool)
    requires Valid(b) && Find(b.root, x).Node? && (ignoreOccurs || Find(b.root, x).occurs <= 1)
    ensures Remove(b, x, ignoreOccurs) == BST(ReplaceAt(b.root, x, Spliced(Find(b.root, x))), b.size - 1)
  {
    RemoveNodeSplicesOnlyThere(b.root, x, ignoreOccurs);
  }

  /** Full removal at a node with two children (here the root): its value
      becomes the smallest value of its right subtree, that successor node is
      spliced out, and the node keeps its own counter rather than the
      successor's. */
  lemma RemoveTwoChildren(b: BST, ignoreOccurs: bool)
    requires Valid(b) && b.root.Node? && b.root.left.Node? && b.root.right.Node?
    requires ignoreOccurs || b.root.occurs == 1
    ensures var s := RemoveMin(b.root.right).0;
      && Remove(b, b.root.val, ignoreOccurs).root
         == Node(s, b.root.occurs, b.root.left, RemoveMin(b.root.right).1)
      && s in Values(b.root.right) && (forall y :: y in Values(b.root.right) ==> s <= y)
      && OccursOf(Remove(b, b.root.val, ignoreOccurs).root, s) == b.root.occurs
      && Remove(b, b.root.val, ignoreOccurs).size == b.size - 1
  {
    RemoveMinSpec(b.root.right);
  }

  /** The subtree the descent stops on lies inside the tree. */
  lemma {:induction false} FindWithin(t: Tree, x: int)
    ensures Values(Find(t, x)) <= Values(t)
  {
    match t
    case Nil =>
    case Node(v, _, l, r) =>
      if v != x {
        if x < v { FindWithin(l, x); } else { FindWithin(r, x); }
      }
  }

  /** Full removal at any node with two children: afterwards the descent
      for the successor `s` (the smallest value right of the node) stops on
      that same node, now holding `s`, keeping its left subtree and its own
      counter, with the successor spliced out of its right subtree. */
  lemma {:induction false} RemoveNodeTwoChildren(t: Tree, x: int, ignoreOccurs: bool)
    requires Ordered(t)
    requires Find(t, x).Node? && Find(t, x).left.Node? && Find(t, x).right.Node?
    requires ignoreOccurs || Find(t, x).occurs <= 1
    ensures RemoveNode(t, x, ignoreOccurs).1
    ensures Find(RemoveNode(t, x, ignoreOccurs).0, RemoveMin(Find(t, x).right).0)
         == Node(RemoveMin(Find(t, x).right).0, Find(t, x).occurs, Find(t, x).left,
                 RemoveMin(Find(t, x).right).1)
  {
    match t
    case Node(v, o, l, r) =>
      if v != x {
        var n := Find(t, x);
        RemoveMinSpec(n.right);
        var s := RemoveMin(n.right).0;
        if x < v {
          FindWithin(l, x);
          assert s in Values(l);
          RemoveNodeTwoChildren(l, x, ignoreOccurs);
        } else {
          FindWithin(r, x);
          assert s in Values(r);
          RemoveNodeTwoChildren(r, x, ignoreOccurs);
        }
      }
  }

  /** `RemoveNodeTwoChildren` on a whole tree: one node fewer, and the
      node's counter is left as it was rather than taken from the
      successor. */
  lemma RemoveTwoChildrenAnywhere(b: BST, x: int, ignoreOccurs: bool)
    requires Valid(b)
    requires Find(b.root, x).Node? && Find(b.root, x).left.Node? && Find(b.root, x).right.Node?
    requires ignoreOccurs || Find(b.root, x).occurs == 1
    ensures Remove(b, x, ignoreOccurs).size == b.size - 1
    ensures Find(Remove(b, x, ignoreOccurs).root, RemoveMin(Find(b.root, x).right).0)
         == Node(RemoveMin(Find(b.root, x).right).0, Find(b.root, x).occurs, Find(b.root, x).left,
                 RemoveMin(Find(b.root, x).right).1)
  {
    RemoveNodeTwoChildren(b.root, x, ignoreOccurs);
    RemoveNodeSpec(b.root, x, ignoreOccurs);
  }

  /** Full removal of a root with at most one child makes that child the
      root, one node fewer. */
  lemma RemoveRootWithOneChild(b: BST, ignoreOccurs: bool)
    requires Valid(b) && b.root.Node? && (b.root.left == Nil || b.root.right == Nil)
    requires ignoreOccurs || b.root.occurs == 1
    ensures Remove(b, b.root.val, ignoreOccurs)
         == BST(if b.root.left.Node? then b.root.left else b.root.right, b.size - 1)
  {
  }

  // ---------------------------------------------------------------- Remove, as written

  /** The removal the code performs. Its search loop assigns the parent before
      testing for equality, so when the found node is not the root the
      "parent" is the node itself; with at most one child, the splice then
      writes `curr.right = child` instead of unlinking the node. The node
      stays reachable while the size still drops. The root and two-children
      paths reassign the parent and splice correctly. */
  function RemoveNodeAsWritten(t: Tree, x: int, ignoreOccurs: bool, atRoot: bool): (r: (Tree, bool))
    ensures r.1 <==> Find(t, x).Node? && (ignoreOccurs || Find(t, x).occurs <= 1)
    ensures !r.1 ==> ShapeOf(r.0) == ShapeOf(t)
  {
    match t
    case Nil => (Nil, false)
    case Node(v, o, l, r) =>
      if v == x then
        if !ignoreOccurs && o > 1 then (Node(v, o - 1, l, r), false)
        else if l.Node? && r.Node? then
          var (s, r') := RemoveMin(r);
          (Node(s, o, l, r'), true)
        else
          var child := if l.Node? then l else r;
          if atRoot then (child, true) else (Node(v, o, l, child), true)
      else if x < v then
        var (l', removed) := RemoveNodeAsWritten(l, x, ignoreOccurs, false);
        (Node(v, o, l', r), removed)
      else
        var (r', removed) := RemoveNodeAsWritten(r, x, ignoreOccurs, false);
        (Node(v, o, l, r'), removed)
  }

  /** The code's `Remove` on the container: the size drops in exactly the
      cases the corrected removal drops it, whether or not a node left. */
  function RemoveAsWritten(b: BST, x: int, ignoreOccurs: bool): (r: BST)
    requires Valid(b)
    ensures r.size == Remove(b, x, ignoreOccurs).size
    ensures r.size == b.size ==> ShapeOf(r.root) == ShapeOf(b.root)
  {
    var (t, removed) := RemoveNodeAsWritten(b.root, x, ignoreOccurs, true);
    BST(t, if removed then b.size - 1 else b.size)
  }

  /** The cases the code gets right: nothing found, a decrement, a found node
      with two children, or the root itself. */
  ghost predicate SplicesCorrectly(t: Tree, x: int, ignoreOccurs: bool, atRoot: bool)
  {
    var n := Find(t, x);
    || n == Nil
    || (!ignoreOccurs && n.occurs > 1)
    || (n.left.Node? && n.right.Node?)
    || (atRoot && t.Node? && t.val == x)
  }

  /** In those cases the code and the corrected removal agree. */
  lemma {:induction false} RemoveNodeAsWrittenAgrees(t: Tree, x: int, ignoreOccurs: bool, atRoot: bool)
    requires SplicesCorrectly(t, x, ignoreOccurs, atRoot)
    ensures RemoveNodeAsWritten(t, x, ignoreOccurs, atRoot) == RemoveNode(t, x, ignoreOccurs)
  {
    match t
    case Nil =>
    case Node(v, o, l, r) =>
      if v != x {
        if x < v {
          RemoveNodeAsWrittenAgrees(l, x, ignoreOccurs, false);
        } else {
          RemoveNodeAsWrittenAgrees(r, x, ignoreOccurs, false);
        }
      }
  }

  /** The code removes correctly on the root path, on the two-children path,
      on a decrement and on an absent value. */
  lemma RemoveAsWrittenCorrectPaths(b: BST, x: int, ignoreOccurs: bool)
    requires Valid(b) && SplicesCorrectly(b.root, x, ignoreOccurs, true)
    ensures RemoveAsWritten(b, x, ignoreOccurs) == Remove(b, x, ignoreOccurs)
  {
    RemoveNodeAsWrittenAgrees(b.root, x, ignoreOccurs, true);
  }

  /** The failing case: found below the root, fully removed, at most one child. */
  ghost predicate SplicesWrongly(t: Tree, x: int, ignoreOccurs: bool)
  {
    var n := Find(t, x);
    n.Node? && (ignoreOccurs || n.occurs <= 1) && (n.left == Nil || n.right == Nil)
  }

  /** There the node stays in the tree with every value and node. */
  lemma {:induction false} RemoveNodeAsWrittenKeeps(t: Tree, x: int, ignoreOccurs: bool)
    requires SplicesWrongly(t, x, ignoreOccurs)
    ensures RemoveNodeAsWritten(t, x, ignoreOccurs, false).1
    ensures Values(RemoveNodeAsWritten(t, x, ignoreOccurs, false).0) == Values(t)
    ensures NodeCount(RemoveNodeAsWritten(t, x, ignoreOccurs, false).0) >= NodeCount(t)
  {
    match t
    case Node(v, o, l, r) =>
      if v != x {
        if x < v {
          RemoveNodeAsWrittenKeeps(l, x, ignoreOccurs);
        } else {
          RemoveNodeAsWrittenKeeps(r, x, ignoreOccurs);
        }
      }
  }

  /** The defect at the container level: the value is still contained, yet
      the size dropped, so the size no longer counts the nodes. */
  lemma RemoveAsWrittenLeavesNode(b: BST, x: int, ignoreOccurs: bool)
    requires Valid(b) && b.root.Node? && b.root.val != x
    requires SplicesWrongly(b.root, x, ignoreOccurs)
    ensures x in Values(RemoveAsWritten(b, x, ignoreOccurs).root)
    ensures Values(RemoveAsWritten(b, x, ignoreOccurs).root) == Values(b.root)
    ensures RemoveAsWritten(b, x, ignoreOccurs).size == b.size - 1
    ensures !Valid(RemoveAsWritten(b, x, ignoreOccurs))
  {
    FindInValues(b.root, x);
    var Node(v, o, l, r) := b.root;
    if x < v {
      RemoveNodeAsWrittenKeeps(l, x, ignoreOccurs);
    } else {
      RemoveNodeAsWrittenKeeps(r, x, ignoreOccurs);
    }
  }

  /** Adding 2 then 1 to an empty tree builds a valid root with one left
      leaf. */
  lemma TwoThenOne()
    ensures Valid(Add(Add(Empty(), 2), 1))
    ensures Add(Add(Empty(), 2), 1) == BST(Node(2, 1, Node(1, 1, Nil, Nil), Nil), 2)
  {
    AddToEmpty(2);
    assert Insert(Node(2, 1, Nil, Nil), 1) == (Node(2, 1, Node(1, 1, Nil, Nil), Nil), true);
    assert Values(Node(1, 1, Nil, Nil)) == {1};
  }

  /** The code's splice at the leaf 1 under the root 2 writes the leaf's
      own empty right slot and leaves the tree as it was. */
  lemma LeafSplicedOnItself()
    ensures RemoveNodeAsWritten(Node(2, 1, Node(1, 1, Nil, Nil), Nil), 1, true, true)
         == (Node(2, 1, Node(1, 1, Nil, Nil), Nil), true)
  {
    assert RemoveNodeAsWritten(Node(1, 1, Nil, Nil), 1, true, false) == (Node(1, 1, Nil, Nil), true);
  }

  /** Adding 2 and 1 and then fully removing 1: the code leaves the tree
      untouched yet reports one node, so 1 is still contained and the size no
      longer counts the nodes. */
  lemma RemoveAsWrittenKeepsLeaf()
    ensures Valid(Add(Add(Empty(), 2), 1))
    ensures RemoveAsWritten(Add(Add(Empty(), 2), 1), 1, true)
         == BST(Node(2, 1, Node(1, 1, Nil, Nil), Nil), 1)
    ensures !Valid(RemoveAsWritten(Add(Add(Empty(), 2), 1), 1, true))
  {
    TwoThenOne();
    LeafSplicedOnItself();
  }

  /** The corrected removal on the same input unlinks the leaf. */
  lemma RemoveDropsLeaf()
    ensures Valid(Add(Add(Empty(), 2), 1))
    ensures Remove(Add(Add(Empty(), 2), 1), 1, true) == BST(Node(2, 1, Nil, Nil), 1)
  {
    TwoThenOne();
  }

  /** Where the found node has no right child, the code's splice leaves it
      with its left subtree on both sides. */
  lemma {:induction false} RemoveNodeAsWrittenCopiesLeft(t: Tree, x: int, ignoreOccurs: bool)
    requires SplicesWrongly(t, x, ignoreOccurs) && Find(t, x).right == Nil
    ensures Find(RemoveNodeAsWritten(t, x, ignoreOccurs, false).0, x)
         == Node(x, Find(t, x).occurs, Find(t, x).left, Find(t, x).left)
  {
    match t
    case Node(v, o, l, r) =>
      if v != x {
        if x < v {
          RemoveNodeAsWrittenCopiesLeft(l, x, ignoreOccurs);
        } else {
          RemoveNodeAsWrittenCopiesLeft(r, x, ignoreOccurs);
        }
      }
  }

  /** Every subtree of an ordered tree is ordered. */
  lemma {:induction false} FindOrdered(t: Tree, x: int)
    requires Ordered(t)
    ensures Ordered(Find(t, x))
  {
    match t
    case Nil =>
    case Node(v, _, l, r) =>
      if v != x {
        if x < v { FindOrdered(l, x); } else { FindOrdered(r, x); }
      }
  }

  /** Fully removing a non-root node that has only a left child: the code
      copies that child into the node's right slot, so its values sit on both
      sides of the node and the tree is no longer ordered. */
  lemma RemoveAsWrittenBreaksOrder(b: BST, x: int, ignoreOccurs: bool)
    requires Valid(b) && b.root.Node? && b.root.val != x
    requires SplicesWrongly(b.root, x, ignoreOccurs)
    requires Find(b.root, x).left.Node? && Find(b.root, x).right == Nil
    ensures !Ordered(RemoveAsWritten(b, x, ignoreOccurs).root)
  {
    var Node(v, o, l, r) := b.root;
    var n := Find(b.root, x);
    var t' := RemoveAsWritten(b, x, ignoreOccurs).root;
    if x < v {
      RemoveNodeAsWrittenCopiesLeft(l, x, ignoreOccurs);
    } else {
      RemoveNodeAsWrittenCopiesLeft(r, x, ignoreOccurs);
    }
    assert Find(t', x) == Node(x, n.occurs, n.left, n.left);
    if Ordered(t') {
      FindOrdered(t', x);
      assert n.left.val in Values(n.left);
      assert false;
    }
  }
}
