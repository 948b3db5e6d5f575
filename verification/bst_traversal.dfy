/** The three traversals of the binary search tree (bst/bst.go). The code
    walks the tree with an explicit stack held in an array of capacity
    `size`; here the stack is a sequence whose last element is the top, and
    every push is checked against that capacity. Each iterative walk is
    proved equal to the recursive definition of its order. */
module BstTraversal {
  import opened BstTree
  import opened Seqs

  // ---------------------------------------------------------------- recursive orders

  /** Left subtree, node, right subtree. */
  function InOrderSeq(t: Tree): seq<int>
  {
    match t
    case Nil => []
    case Node(v, _, l, r) => InOrderSeq(l) + [v] + InOrderSeq(r)
  }

  /** Node, left subtree, right subtree. */
  function PreOrderSeq(t: Tree): seq<int>
  {
    match t
    case Nil => []
    case Node(v, _, l, r) => [v] + PreOrderSeq(l) + PreOrderSeq(r)
  }

  /** Left subtree, right subtree, node. */
  function PostOrderSeq(t: Tree): seq<int>
  {
    match t
    case Nil => []
    case Node(v, _, l, r) => PostOrderSeq(l) + PostOrderSeq(r) + [v]
  }

  /** Node, right subtree, left subtree: the walk `PostOrder` performs before
      reversing its result. */
  function RootRightLeft(t: Tree): seq<int>
  {
    match t
    case Nil => []
    case Node(v, _, l, r) => [v] + RootRightLeft(r) + RootRightLeft(l)
  }

  /** Reversing the root-right-left walk gives the post-order. */
  lemma {:induction false} ReverseRootRightLeft(t: Tree)
    ensures Reverse(RootRightLeft(t)) == PostOrderSeq(t)
  {
    match t
    case Nil =>
    case Node(v, _, l, r) =>
      ReverseRootRightLeft(l);
      ReverseRootRightLeft(r);
      ReverseConcat([v] + RootRightLeft(r), RootRightLeft(l));
      ReverseConcat([v], RootRightLeft(r));
      assert Reverse([v]) == [v];
  }

  // ---------------------------------------------------------------- facts about the orders

  /** Every order lists each node once. */
  lemma {:induction false} OrderLengths(t: Tree)
    ensures |InOrderSeq(t)| == NodeCount(t)
    ensures |PreOrderSeq(t)| == NodeCount(t)
    ensures |PostOrderSeq(t)| == NodeCount(t)
    ensures |RootRightLeft(t)| == NodeCount(t)
  {
    match t
    case Nil =>
    case Node(_, _, l, r) =>
      OrderLengths(l);
      OrderLengths(r);
  }

  /** The three orders hold the same values, each as often. */
  lemma {:induction false} OrdersSameMultiset(t: Tree)
    ensures multiset(PreOrderSeq(t)) == multiset(InOrderSeq(t))
    ensures multiset(PostOrderSeq(t)) == multiset(InOrderSeq(t))
  {
    match t
    case Nil =>
    case Node(v, _, l, r) =>
      OrdersSameMultiset(l);
      OrdersSameMultiset(r);
  }

  /** The in-order lists exactly the values of the tree. */
  lemma {:induction false} InOrderValues(t: Tree)
    ensures forall x :: x in InOrderSeq(t) <==> x in Values(t)
  {
    match t
    case Nil =>
    case Node(v, _, l, r) =>
      InOrderValues(l);
      InOrderValues(r);
  }

  ghost predicate StrictlyIncreasing(s: seq<int>)
  {
    forall i, j :: 0 <= i < j < |s| ==> s[i] < s[j]
  }

  /** On an ordered tree the in-order is strictly increasing. */
  lemma {:induction false} InOrderSorted(t: Tree)
    requires Ordered(t)
    ensures StrictlyIncreasing(InOrderSeq(t))
  {
    match t
    case Nil =>
    case Node(v, _, l, r) =>
      InOrderSorted(l);
      InOrderSorted(r);
      InOrderValues(l);
      InOrderValues(r);
      var a, b := InOrderSeq(l), InOrderSeq(r);
      var s := a + [v] + b;
      forall i, j | 0 <= i < j < |s|
        ensures s[i] < s[j]
      {
        if j < |a| {
        } else if i < |a| {
          assert s[i] in a;
          if j > |a| { assert s[j] == b[j - |a| - 1]; assert s[j] in b; }
        } else if i == |a| {
          assert s[j] == b[j - |a| - 1];
          assert s[j] in b;
        } else {
          assert s[i] == b[i - |a| - 1] && s[j] == b[j - |a| - 1];
        }
      }
  }

  // ---------------------------------------------------------------- the array stack

  /** `push`: bump the index, then store; the index must stay inside the
      array of capacity `cap`. Popping right after gives back `x` and the
      old stack. */
  function Push<T>(s: seq<T>, cap: nat, x: T): (r: seq<T>)
    requires |s| < cap
    ensures |s| < |r| <= cap
    ensures Pop(r) == (x, s)
  {
    assert (s + [x])[..|s|] == s;
    s + [x]
  }

  /** `pop`: read the top, then lower the index; the stack must not be
      empty. The top and the rest make up the old stack. */
  function Pop<T>(s: seq<T>): (r: (T, seq<T>))
    requires |s| > 0
    ensures r.1 + [r.0] == s
  {
    (s[|s| - 1], s[..|s| - 1])
  }

  ghost predicate AllNodes(stack: seq<Tree>)
  {
    forall i :: 0 <= i < |stack| ==> stack[i].Node?
  }

  // ---------------------------------------------------------------- InOrder

  /** What the in-order walk still owes for the nodes on the stack: each,
      from the top down, followed by its right subtree. */
  ghost function PendingIn(stack: seq<Tree>): seq<int>
  {
    if |stack| == 0 then []
    else
      var top := stack[|stack| - 1];
      (if top.Node? then [top.val] + InOrderSeq(top.right) else [])
      + PendingIn(stack[..|stack| - 1])
  }

  lemma {:induction false} PendingInLength(stack: seq<Tree>)
    requires AllNodes(stack)
    ensures |PendingIn(stack)| >= |stack|
  {
    if |stack| > 0 {
      PendingInLength(stack[..|stack| - 1]);
    }
  }

  /** Pushing a node moves it from the current subtree to the stack without
      changing what is owed; the stack is shorter than all that is owed. */
  lemma InPushStep(done: seq<int>, curr: Tree, stack: seq<Tree>)
    requires curr.Node? && AllNodes(stack)
    ensures done + (InOrderSeq(curr) + PendingIn(stack))
         == done + (InOrderSeq(curr.left) + PendingIn(stack + [curr]))
    ensures AllNodes(stack + [curr])
    ensures |stack| < |done + (InOrderSeq(curr) + PendingIn(stack))|
  {
    assert (stack + [curr])[..|stack|] == stack;
    PendingInLength(stack);
  }

  /** Popping a node emits it and makes its right subtree current. */
  lemma InPopStep(done: seq<int>, stack: seq<Tree>)
    requires |stack| > 0 && AllNodes(stack)
    ensures done + (InOrderSeq(Nil) + PendingIn(stack))
         == (done + [stack[|stack| - 1].val])
            + (InOrderSeq(stack[|stack| - 1].right) + PendingIn(stack[..|stack| - 1]))
    ensures AllNodes(stack[..|stack| - 1])
    ensures |done| < |done + (InOrderSeq(Nil) + PendingIn(stack))|
  {
  }

  /** `InOrder`: nothing for an empty tree; otherwise the stack walk
      below. The result is the in-order sequence, one value per node, holding
      exactly the tree's values, and strictly increasing on an ordered tree. */
  method InOrder(b: BST) returns (result: seq<int>)
    requires b.size == NodeCount(b.root)
    ensures result == InOrderSeq(b.root)
    ensures |result| == b.size
    ensures Ordered(b.root) ==> StrictlyIncreasing(result)
    ensures forall x :: x in result <==> x in Values(b.root)
  {
    OrderLengths(b.root);
    InOrderValues(b.root);
    if b.size == 0 {
      return [];
    }
    result := InOrderWalk(b.root, b.size);
    if Ordered(b.root) {
      InOrderSorted(b.root);
    }
  }

  /** The loop of `InOrder`, with stack and result arrays of capacity
      `size`: push the left spine, pop a node, emit it, continue with its
      right child. */
  method InOrderWalk(root: Tree, size: nat) returns (result: seq<int>)
    requires size == NodeCount(root)
    ensures result == InOrderSeq(root)
  {
    OrderLengths(root);
    var stack: seq<Tree> := [];
    result := [];
    var curr := root;
    while curr.Node? || |stack| > 0
      invariant AllNodes(stack)
      invariant result + (InOrderSeq(curr) + PendingIn(stack)) == InOrderSeq(root)
      decreases size - |result|
    {
      while curr.Node?
        invariant AllNodes(stack)
        invariant curr.Node? || |stack| > 0
        invariant result + (InOrderSeq(curr) + PendingIn(stack)) == InOrderSeq(root)
        decreases curr
      {
        InPushStep(result, curr, stack);
        stack := Push(stack, size, curr);
        curr := curr.left;
      }
      InPopStep(result, stack);
      var (top, rest) := Pop(stack);
      stack := rest;
      result := Push(result, size, top.val);
      curr := top.right;
    }
  }

  // ---------------------------------------------------------------- PreOrder


  /** What the pre-order walk still owes: the right subtree of each node on
      the stack, from the top down (the nodes themselves are already out). */
  ghost function PendingPre(stack: seq<Tree>): seq<int>
  {
    if |stack| == 0 then []
    else
      var top := stack[|stack| - 1];
      (if top.Node? then PreOrderSeq(top.right) else []) + PendingPre(stack[..|stack| - 1])
  }

  /** Pushing a node emits it and moves it to the stack, its left child
      becoming current. */
  lemma PrePushStep(done: seq<int>, curr: Tree, stack: seq<Tree>)
    requires curr.Node?
    ensures done + (PreOrderSeq(curr) + PendingPre(stack))
         == (done + [curr.val]) + (PreOrderSeq(curr.left) + PendingPre(stack + [curr]))
    ensures |done + (PreOrderSeq(curr) + PendingPre(stack))| > |done|
  {
    var owed := PreOrderSeq(curr.right) + PendingPre(stack);
    assert (stack + [curr])[..|stack|] == stack;
    assert PendingPre(stack + [curr]) == owed;
    assert PreOrderSeq(curr) + PendingPre(stack) == [curr.val] + (PreOrderSeq(curr.left) + owed);
  }

  lemma PrePopStep(stack: seq<Tree>)
    requires |stack| > 0 && stack[|stack| - 1].Node?
    ensures PreOrderSeq(Nil) + PendingPre(stack)
         == PreOrderSeq(stack[|stack| - 1].right) + PendingPre(stack[..|stack| - 1])
  {
    assert PreOrderSeq(Nil) + PendingPre(stack) == PendingPre(stack);
  }

  /** `PreOrder`: nothing for an empty tree; otherwise the stack walk below.
      The result is the pre-order sequence, one value per node. */
  method PreOrder(b: BST) returns (result: seq<int>)
    requires b.size == NodeCount(b.root)
    ensures result == PreOrderSeq(b.root)
    ensures |result| == b.size
  {
    OrderLengths(b.root);
    if b.size == 0 {
      return [];
    }
    result := PreOrderWalk(b.root, b.size);
  }

  /** The loop of `PreOrder`, with stack and result arrays of capacity
      `size`: emit and push each node down the left spine, pop, continue
      with the popped node's right child. */
  method PreOrderWalk(root: Tree, size: nat) returns (result: seq<int>)
    requires size == NodeCount(root)
    ensures result == PreOrderSeq(root)
  {
    OrderLengths(root);
    var stack: seq<Tree> := [];
    result := [];
    var curr := root;
    while curr.Node? || |stack| > 0
      invariant AllNodes(stack)
      invariant |stack| <= |result|
      invariant result + (PreOrderSeq(curr) + PendingPre(stack)) == PreOrderSeq(root)
      decreases size - |result|, |stack|
    {
      ghost var before, depth := |result|, |stack|;
      while curr.Node?
        invariant AllNodes(stack)
        invariant |stack| <= |result|
        invariant curr.Node? || |stack| > 0
        invariant |result| - before == |stack| - depth >= 0
        invariant result + (PreOrderSeq(curr) + PendingPre(stack)) == PreOrderSeq(root)
        decreases curr
      {
        PrePushStep(result, curr, stack);
        result := Push(result, size, curr.val);
        stack := Push(stack, size, curr);
        curr := curr.left;
      }
      PrePopStep(stack);
      var (top, rest) := Pop(stack);
      stack := rest;
      curr := top.right;
    }
  }

  // ---------------------------------------------------------------- PostOrder

  /** What the root-right-left walk still owes: the left subtree of each node
      on the stack, from the top down. */
  ghost function PendingRrl(stack: seq<Tree>): seq<int>
  {
    if |stack| == 0 then []
    else
      var top := stack[|stack| - 1];
      (if top.Node? then RootRightLeft(top.left) else []) + PendingRrl(stack[..|stack| - 1])
  }

  /** Pushing a node emits it and moves it to the stack, its right child
      becoming current. */
  lemma RrlPushStep(done: seq<int>, curr: Tree, stack: seq<Tree>)
    requires curr.Node?
    ensures done + (RootRightLeft(curr) + PendingRrl(stack))
         == (done + [curr.val]) + (RootRightLeft(curr.right) + PendingRrl(stack + [curr]))
    ensures |done + (RootRightLeft(curr) + PendingRrl(stack))| > |done|
  {
    var owed := RootRightLeft(curr.left) + PendingRrl(stack);
    assert (stack + [curr])[..|stack|] == stack;
    assert PendingRrl(stack + [curr]) == owed;
    assert RootRightLeft(curr) + PendingRrl(stack) == [curr.val] + (RootRightLeft(curr.right) + owed);
  }

  lemma RrlPopStep(stack: seq<Tree>)
    requires |stack| > 0 && stack[|stack| - 1].Node?
    ensures RootRightLeft(Nil) + PendingRrl(stack)
         == RootRightLeft(stack[|stack| - 1].left) + PendingRrl(stack[..|stack| - 1])
  {
    assert RootRightLeft(Nil) + PendingRrl(stack) == PendingRrl(stack);
  }

  /** `PostOrder`: nothing for an empty tree; otherwise the pre-order walk
      with the children swapped, reversed at the end. The result is the
      post-order sequence, one value per node. */
  method PostOrder(b: BST) returns (result: seq<int>)
    requires b.size == NodeCount(b.root)
    ensures result == PostOrderSeq(b.root)
    ensures |result| == b.size
  {
    OrderLengths(b.root);
    ReverseRootRightLeft(b.root);
    if b.size == 0 {
      return [];
    }
    var walk := RootRightLeftWalk(b.root, b.size);
    result := Reverse(walk);
  }

  /** The loop of `PostOrder`, with stack and walk arrays of capacity
      `size`: emit and push each node down the right spine, pop, continue
      with the popped node's left child. */
  method RootRightLeftWalk(root: Tree, size: nat) returns (walk: seq<int>)
    requires size == NodeCount(root)
    ensures walk == RootRightLeft(root)
  {
    OrderLengths(root);
    var stack: seq<Tree> := [];
    walk := [];
    var curr := root;
    while curr.Node? || |stack| > 0
      invariant AllNodes(stack)
      invariant |stack| <= |walk|
      invariant walk + (RootRightLeft(curr) + PendingRrl(stack)) == RootRightLeft(root)
      decreases size - |walk|, |stack|
    {
      ghost var before, depth := |walk|, |stack|;
      while curr.Node?
        invariant AllNodes(stack)
        invariant |stack| <= |walk|
        invariant curr.Node? || |stack| > 0
        invariant |walk| - before == |stack| - depth >= 0
        invariant walk + (RootRightLeft(curr) + PendingRrl(stack)) == RootRightLeft(root)
        decreases curr
      {
        RrlPushStep(walk, curr, stack);
        walk := Push(walk, size, curr.val);
        stack := Push(stack, size, curr);
        curr := curr.right;
      }
      RrlPopStep(stack);
      var (top, rest) := Pop(stack);
      stack := rest;
      curr := top.left;
    }
  }
}
