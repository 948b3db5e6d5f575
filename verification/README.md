# Binary search tree and doubly linked list, in Dafny

This project models the two containers of the `data-structure` Go repository:

- the binary search tree of `bst/bst.go`, whose nodes count repeated values in an
  occurrence counter (`Occurs`) and which walks itself iteratively with an
  array stack;
- the doubly linked list of `linked-list/linked_list.go`, with its
  `IndexOutOfBound{Start, End}` error from `exception/ex.go`.

Files:

- `bst_tree.dfy` (module `BstTree`): the tree as an immutable datatype, and `Add`,
  `Contains` and `Remove` as the code descends. The representation invariant
  `Valid` says three things:
  - everything left of a node is smaller and everything right of it is larger;
  - every counter is at least 1;
  - `size` is the number of nodes.

  `Remove` is the corrected removal the doc comment describes. `RemoveAsWritten`
  is the code's removal, including the splice defect listed under Findings.
- `bst_traversal.dfy` (module `BstTraversal`): the recursive in-, pre- and
  post-orders. It also holds the three iterative walks with the stack as a
  sequence whose pushes are checked against the array capacity `size`. Each walk
  is proved equal to its recursive order.
- `seqs.dfy` (module `Seqs`): sequence reversal, standing in for `slices.Reverse`.
- `exception.dfy` (module `Exception`): the error value and the unsigned
  `size - 1` that becomes its `End`.
- `linked_list.dfy` (module `LinkedList`): the list over an arena of nodes.
  - A `Link` is nil or a slot of the arena; every write is a pointer write the
    code performs.
  - `LinkedAs` states the link structure: `head.prev` and `tail.next` are nil, and
    every `next`/`prev` points at the neighbour.
  - `Valid` says the forward walk from `head` visits `size` distinct nodes that are
    linked that way.
  - `Abs` is the sequence of values along that walk, and every operation is
    specified against it.
- `bst_scenarios.dfy`, `list_scenarios.dfy`: the inputs of the repository's tests
  and examples, with the results the model's contracts give for them.

## Model

| member | source | states |
|---|---|---|
| BstTree.Empty | bst/bst.go:33-47 | `Init`/`New` give a tree with no root and size 0, which satisfies the invariant and holds no value |
| BstTree.PresentIsCounted | bst/bst.go:9-13 | in a valid tree every value present is counted at least once, so `Occurs` never reads 0 for a stored value |
| BstTree.NewNodeSpec | bst/bst.go:267-269 | `createNode` makes a one-node tree that satisfies the invariant, holds only `x`, and counts it once |
| BstTree.AddToEmpty | bst/bst.go:57-61 | adding to an empty tree makes a single root seen once, with size 1 |
| BstTree.Insert | bst/bst.go:63-88 | the descent below the root creates a node exactly when no node on its path holds `x`; afterwards the descent for `x` stops on a node holding `x` |
| BstTree.Add | bst/bst.go:56-89 | afterwards the tree has a node holding `x`; `size` grows by one exactly when `x` was absent, and stays otherwise |
| BstTree.InsertSpec | bst/bst.go:63-88 | below the root, a node is created exactly when the descent falls off the tree; the values grow by `x`, the node count by the created node, and ordering and positive counters are kept |
| BstTree.AddPreservesValid | bst/bst.go:56-89 | `Add` keeps the tree ordered, every counter positive and `size` equal to the node count, and adds exactly `x` to the values |
| BstTree.AddAbsent | bst/bst.go:73-88 | adding an absent value attaches a leaf holding `x` with counter 1, grows `size` by one, leaves every other counter alone and keeps the invariant; removing `x` again, occurrences ignored, gives back exactly the original tree |
| BstTree.AddPresent | bst/bst.go:68-71 | adding a present value raises only its counter by one; the shape and `size` are unchanged |
| BstTree.FindCorrect | bst/bst.go:162-178 | on an ordered tree the equality-first descent stops on a node exactly when the value is present, and that node holds it |
| BstTree.Contains | bst/bst.go:162-178 | the loop answers true exactly when the descent finds a node, so on an ordered tree exactly when the value is in the tree |
| BstTree.RemoveMinSpec | bst/bst.go:128-133 | the in-order successor is the smallest value of the right subtree, and splicing it out removes only that value and one node and keeps the order |
| BstTree.TwoThenOne | bst/bst.go:56-88 | adding 2 and then 1 to an empty tree gives root 2, seen once, with the leaf 1 as its left child and size 2, a valid tree |
| BstTree.RemoveNode | bst/bst.go:94-159 | the corrected removal below the root reports a departing node exactly when the descent finds `x` and occurrences are ignored or `x` was seen once; when no node departs the shape is unchanged |
| BstTree.Remove | bst/bst.go:91-159 | the corrected removal: `size` drops by one exactly when `x` is found and occurrences are ignored or it was seen once, and when `size` stays the shape is unchanged; where the splice is made is stated by BstTree.RemoveSplicesAtParent |
| BstTree.RemoveNodeSplicesOnlyThere | bst/bst.go:99-156 | a full removal below the root replaces only the subtree the descent stops on: with two children by the node overwritten with its successor, otherwise by its one child or nil; every node on the path and every subtree off it is unchanged |
| BstTree.RemoveSplicesAtParent | bst/bst.go:91-158 | on a valid tree the corrected full removal links the departing node's replacement into its real parent, leaves the rest of the tree as it was, and drops `size` by one |
| BstTree.RemoveNodeSpec | bst/bst.go:94-159 | a node leaves only if the descent found `x`; the node count drops by one exactly then; ordering and positive counters survive; a departing node takes exactly `x` out of the values |
| BstTree.RemovePreservesValid | bst/bst.go:94-159 | the corrected removal keeps the invariant and adds no value |
| BstTree.RemoveAbsent | bst/bst.go:112-115 | removing an absent value changes nothing |
| BstTree.RemoveDecrements | bst/bst.go:117-121 | without `ignoreOccurs`, a value seen more than once loses one occurrence; the shape, `size` and other counters are unchanged |
| BstTree.RemoveFull | bst/bst.go:123-158 | a full removal (occurrences ignored, or the value seen once) takes the value out of the tree and drops `size` by one |
| BstTree.SpliceSuccessorSpec | bst/bst.go:125-136 | overwriting a node with two children by its successor, spliced out of the right subtree, loses one node and, on an ordered tree, exactly the node's value, keeping the order and positive counters |
| BstTree.RemoveNodeTwoChildren | bst/bst.go:125-136 | at a node with two children, the node takes the successor's value, keeps its left subtree and its own counter, and loses the successor from its right subtree |
| BstTree.RemoveTwoChildrenAnywhere | bst/bst.go:123-158 | the two-children removal on a whole tree: one node fewer, and the successor's value now sits in the old node with the old node's counter |
| BstTree.RemoveTwoChildren | bst/bst.go:125-136 | the two-children case at the root, with the successor shown to be the minimum of the right subtree and its counter taken from the removed node |
| BstTree.RemoveRootWithOneChild | bst/bst.go:141-149 | fully removing a root with at most one child makes that child the root, with one node fewer |
| BstTree.RemoveNodeAsWritten | bst/bst.go:94-159 | the code's removal below the root sets its flag, meaning `size` is decremented, in exactly the same cases as the corrected one, even where the defective splice leaves the node in place; when the flag is clear the shape is unchanged |
| BstTree.RemoveAsWritten | bst/bst.go:91-159 | the code's removal drops `size` in exactly the cases the corrected removal does, and when `size` stays the shape is unchanged |
| BstTree.RemoveAsWrittenCorrectPaths | bst/bst.go:94-159 | the code's removal agrees with the corrected one when nothing is found, on a decrement, on the two-children path and at the root |
| BstTree.RemoveAsWrittenLeavesNode | bst/bst.go:99-158 | for a non-root node with at most one child, the code's removal leaves the value in the tree, keeps every value, yet drops `size`, so the invariant breaks |
| BstTree.RemoveAsWrittenKeepsLeaf | bst/bst.go:148-158 | on the valid tree built by adding 2 then 1, the code's full removal of the leaf 1 leaves both nodes in place with size 1, so the result is not valid |
| BstTree.RemoveNodeAsWrittenCopiesLeft | bst/bst.go:141-155 | when the found node has only a left child, the code's splice leaves the node in place with that left child in both of its slots |
| BstTree.RemoveAsWrittenBreaksOrder | bst/bst.go:141-155 | on any valid tree, fully removing a non-root node that has only a left child leaves a tree that is no longer ordered |
| BstTree.RemoveDropsLeaf | bst/bst.go:91-93 | on the same tree, the corrected removal of that leaf unlinks it, leaving root 2 alone with size 1 |
| BstTraversal.InOrderValues | bst/bst.go:180-203 | the in-order sequence holds exactly the values of the tree |
| BstTraversal.InOrderSorted | bst/bst.go:180-203 | on an ordered tree the in-order sequence is strictly increasing |
| BstTraversal.OrderLengths | bst/bst.go:185-187 | every order has one entry per node, so `size` array slots suffice |
| BstTraversal.OrdersSameMultiset | bst/bst.go:180-254 | the three orders hold the same values with the same multiplicities |
| BstTraversal.ReverseRootRightLeft | bst/bst.go:240-252 | reversing the root-right-left walk gives the left-right-root post-order |
| BstTraversal.Push | bst/bst.go:262-265 | a push onto a stack below its capacity stays within the capacity, and popping right after gives back the pushed element and the old stack |
| BstTraversal.Pop | bst/bst.go:256-260 | a pop of a non-empty stack returns the top and the rest, which together make up the old stack |
| BstTraversal.InOrder | bst/bst.go:180-203 | the iterative walk with a stack of capacity `size` returns the recursive in-order: `size` values, strictly increasing, exactly the tree's values, empty for an empty tree |
| BstTraversal.InOrderWalk | bst/bst.go:185-202 | the loop of `InOrder`, with stack and result of capacity `size` equal to the node count, returns the recursive in-order |
| BstTraversal.PreOrder | bst/bst.go:205-228 | the iterative walk never pushes past capacity `size` and returns the recursive node-left-right order |
| BstTraversal.PreOrderWalk | bst/bst.go:210-227 | the loop of `PreOrder`, with stack and result of capacity `size` equal to the node count, returns the recursive node-left-right order |
| BstTraversal.PostOrder | bst/bst.go:230-254 | the root-right-left walk, reversed, is the recursive left-right-root order |
| BstTraversal.RootRightLeftWalk | bst/bst.go:235-250 | the loop of `PostOrder`, with stack and result of capacity `size` equal to the node count, returns the node-right-left order |
| Seqs.Reverse | bst/bst.go:252 | reversal keeps the length |
| Seqs.ReverseIndex | bst/bst.go:252 | reversal keeps the length and reads the sequence back to front |
| Exception.UintPred | linked-list/linked_list.go:135 | the unsigned `size - 1` is `size - 1` for a positive size and wraps to the largest `uint` at zero |
| Exception.OutOfRange | exception/ex.go:5-8 | the reported range starts at 0 and ends at `size - 1`, wrapping to the largest `uint` for an empty list |
| LinkedList.Establish | linked-list/linked_list.go:21-25 | a chain of `size` nodes linked both ways from `head` to `tail` is exactly what the forward walk finds |
| LinkedList.LinkInvariant | linked-list/linked_list.go:1-25 | on a valid list, head and tail are nil exactly when it is empty; otherwise the head has no `prev` and the tail no `next`; the forward walk visits `size` nodes, and the backward walk from the tail visits the same nodes in reverse |
| LinkedList.CreateNodeAlone | linked-list/linked_list.go:27-33 | a created node has no links, so making it both head and tail gives a valid list holding just its value |
| LinkedList.Init | linked-list/linked_list.go:46-51 | `Init` clears head, tail and size, which gives a valid empty list; the nodes it drops stay unreachable in the arena |
| LinkedList.New | linked-list/linked_list.go:54-57 | `New` gives a valid empty list |
| LinkedList.AddFirst | linked-list/linked_list.go:75-87 | the new node goes in a fresh slot, becomes the head, holds `x`, points forward at the old head, and `size` grows by one |
| LinkedList.AddLast | linked-list/linked_list.go:90-102 | the new node goes in a fresh slot, becomes the tail, holds `x`, points back at the old tail of a non-empty list, and `size` grows by one |
| LinkedList.AddFirstSpec | linked-list/linked_list.go:75-87 | `AddFirst` keeps the link invariant, grows `size` by one and puts `x` in front of the sequence |
| LinkedList.AddLastSpec | linked-list/linked_list.go:90-102 | `AddLast` keeps the link invariant, grows `size` by one and puts `x` behind the sequence |
| LinkedList.AddFirstLinked | linked-list/linked_list.go:76-84 | the new node becomes the first link of the chain, before the old head |
| LinkedList.AddLastLinked | linked-list/linked_list.go:91-99 | the new node becomes the last link of the chain, after the old tail |
| LinkedList.LinkBefore | linked-list/linked_list.go:124-127 | the writes of an inner `Add` add one node holding `x` and change no stored value |
| LinkedList.LinkBeforeLinked | linked-list/linked_list.go:124-127 | the four pointer writes of an inner `Add` link the new node in between position `p - 1` and position `p` |
| LinkedList.Unlink | linked-list/linked_list.go:159-160 | the writes of an inner `Remove` add no node and change no stored value, only links |
| LinkedList.UnlinkLinked | linked-list/linked_list.go:159-160 | the two pointer writes of an inner `Remove` take the node at position `p` out of the chain |
| LinkedList.DropHeadLinked | linked-list/linked_list.go:143-146 | removing the head of a list of two or more makes its successor the head with nil `prev` |
| LinkedList.DropTailLinked | linked-list/linked_list.go:147-150 | removing the tail of a list of two or more makes its predecessor the tail with nil `next` |
| LinkedList.ChainsOf | linked-list/linked_list.go:1-25 | on a valid list, following `next` from the head reads the sequence front to back, and following `prev` from the tail reads it back to front |
| LinkedList.RemovedAtFrame | linked-list/linked_list.go:139-163 | the unlinking writes change only links: every node of the arena keeps its value |
| LinkedList.SeekFromHead | linked-list/linked_list.go:193-197 | the loop of `Get`, started at the head with counter 0, stops on the node at `position` |
| LinkedList.SeekFromSecond | linked-list/linked_list.go:118-122 | the loop that starts at the head's successor with counter 1 stops on the node at `position` |
| LinkedList.Add | linked-list/linked_list.go:106-129 | `Add(p, x)` keeps the invariant and grows `size` by one. For `p >= size` it is `AddLast`; for `p == 0` with a non-empty list it is `AddFirst`; for `p <= size` the sequence becomes `s[..p] + [x] + s[p..]` |
| LinkedList.InsertedAtSpec | linked-list/linked_list.go:117-128 | linking a node in before the node at an inner position `p` keeps the invariant and leaves `s[..p] + [x] + s[p..]` |
| LinkedList.RemovedAtLinked | linked-list/linked_list.go:139-163 | each of the four unlinking cases leaves the walk order without the node at position `p`, linked both ways |
| LinkedList.RemovedAtSpec | linked-list/linked_list.go:139-163 | each of the four unlinking cases keeps the invariant, drops `size` by one and leaves `s[..p] + s[p+1..]` |
| LinkedList.Remove | linked-list/linked_list.go:133-165 | `Remove(p)` with `p >= size` returns `IndexOutOfBound{0, size-1}` (wrapped when empty) and leaves the list unchanged. Otherwise it returns `s[p]` and leaves `s[..p] + s[p+1..]` with one node fewer |
| LinkedList.Get | linked-list/linked_list.go:187-201 | `Get(p)` returns the same error when `p >= size`, otherwise `s[p]` |
| LinkedList.GetFirst | linked-list/linked_list.go:168-174 | the first value, or the zero value when the list is empty |
| LinkedList.GetLast | linked-list/linked_list.go:177-183 | the last value, or the zero value when the list is empty |
| LinkedList.Contains | linked-list/linked_list.go:204-212 | true exactly when the value is in the sequence |
| LinkedList.ContainsFrom | linked-list/linked_list.go:205-211 | the forward walk answers true exactly when some node of the chain holds the value |
| LinkedList.IndexOfFrom | linked-list/linked_list.go:217-227 | the forward walk with a counter returns the first position of the value in the chain, or -1 exactly when no node holds it |
| LinkedList.LastIndexOfFrom | linked-list/linked_list.go:233-243 | the backward walk from the tail, counting down from `size - 1`, returns the last position of the value, or -1 exactly when no node holds it |
| LinkedList.IndexOf | linked-list/linked_list.go:216-228 | the smallest position holding the value, -1 exactly when there is none |
| LinkedList.LastIndexOf | linked-list/linked_list.go:232-244 | the largest position holding the value, found walking `prev` from the tail; -1 exactly when there is none |
| LinkedList.AddThenGet | linked-list/linked_list.go:106-201 | after `Add(p, x)` with `p <= size`, `Get(p)` returns `x` without error |
| LinkedList.AddThenRemove | linked-list/linked_list.go:106-165 | `Remove(p)` right after `Add(p, x)` returns `x` and restores the sequence and the size |
| BstScenarios.SampleTraversals | bst/bst_test.go:10-56 | adding 8, 3, 1, 6, 4, 7, 10, 14, 13 gives the in-, pre- and post-orders the tests expect |
| BstScenarios.SizeSteps | bst/bst_test.go:72-120 | on any valid tree holding 6 and not 69, the size test's steps leave the sizes `n, n, n+1, n+1, n, 0` |
| BstScenarios.Sample | bst/bst_test.go:72-120 | the sample tree with size 9 is valid, holds 6 and not 69 |
| BstScenarios.SampleSizes | bst/bst_test.go:72-120 | on the sample tree those sizes are 9, 9, 10, 10, 9, 0 |
| BstScenarios.SampleContains | bst/bst_test.go:58-70 | after adding 12, 13, 10 the tree contains 13 and not 3 |
| BstScenarios.ExampleOutput | bst/example_test.go:9-25 | adding 40, 30, 25, 35, 50, 45, 60, 40 gives the in-order `[25 30 35 40 45 50 60]`, with root 40 seen twice |
| ListScenarios.ExampleOrder | linked-list/example_test.go:5-25 | the example's additions give `10, 11, 12, 13, 15, 16` |
| ListScenarios.AddOrder | linked-list/linked_list_test.go:7-28 | the add test gives `0, 1, 2, 3, 4, 5` |
| ListScenarios.Count | linked-list/linked_list_test.go:116-128 | appending `0 .. n-1` to an empty list gives exactly those values |
| ListScenarios.RemoveOrder | linked-list/linked_list_test.go:31-61 | position 5 of a five-element list is out of range `[0, 4]`; removing positions 1, 3, 0 leaves `2, 3` |
| ListScenarios.RemoveSteps | linked-list/linked_list_test.go:31-61 | on `0, 1, 2, 3, 4`, removing position 5 fails with `[0, 4]`, and removing positions 1, 3, 0 leaves `2, 3` |
| ListScenarios.GetReads | linked-list/linked_list_test.go:63-93 | on `0, 4, 2, 3, 4, 5`: first 0, last 5, position 6 out of range `[0, 5]`, 3 present, -3 absent |
| ListScenarios.GetFirstPositions | linked-list/linked_list_test.go:95-103 | on the same list the first 4 is at 1 and 7 is at -1 |
| ListScenarios.GetLastPositions | linked-list/linked_list_test.go:105-113 | on the same list the last 4 is at 4 and 7 is at -1 |
| ListScenarios.GetResults | linked-list/linked_list_test.go:63-113 | on `0, 4, 2, 3, 4, 5` the reads give: first 0, last 5, position 6 out of range `[0, 5]`, 3 present, -3 absent, first 4 at 1, last 4 at 4, 7 at -1 |
| ListScenarios.EmptyReads | linked-list/linked_list.go:133-201 | on an empty list, `Get(0)` and `Remove(0)` report the range `[0, 18446744073709551615]`, and `GetFirst`/`GetLast` give the zero value |

## Left out

- Go generics: the tree holds `int` (a strict total order). The list is generic
  over any `T`, and over `T(==)` where it compares values.
- Each `uint` counter (`size`, `Occurs`) is an unbounded natural number, so its
  wrap-around at 2^64 is not modelled. The list's error bound, `size - 1` for
  an empty list, does wrap on every call and is modelled by
  `Exception.UintPred`. The tree's `size--` wrap is described under
  RemoveAsWritten below.
- Pointers and the heap:
  - The tree is an immutable value, so each operation returns the new tree.
  - The list is an arena of nodes, and each operation returns the new list.
  - A removed list node stays in the arena, unreachable.
  - Writes through a nil or dangling link are no-ops in `SetNext`/`SetPrev`; on a
    valid list the code never makes one.
- The node accessors (`Left`, `Right`, `Root`, `Size`, `Head`, `Tail`, `Next`,
  `Prev`) and the exported `Val`/`Occurs` fields only expose state. Mutating a
  container through them is not modelled.
- `IndexOutOfBound.Error()` string formatting (exception/ex.go:10-12) is not
  modelled; the error is the pair `start`/`end`.
- `Get` and `Remove` return the value or the error (`Result`). On error the code
  also returns `T`'s zero value alongside the error, which the model drops.
- `GetFirst` and `GetLast` take Go's zero value of `T` as the parameter `zero`.
- LastIndexOf: `int(size - 1)` is modelled as the integer `size - 1`. For an empty
  list Go's conversion also yields -1, and the two agree for every size below
  2^63.
- The traversals return an empty sequence where the code returns a nil slice for
  an empty tree.
- BstTraversal.InOrder, BstTraversal.PreOrder and BstTraversal.PostOrder require
  `size` to equal the node count. Otherwise the arrays of capacity `size` can
  overflow, and the code would panic. The as-written removal can produce exactly
  such a tree. `InOrder` promises a strictly increasing result only when the
  tree is ordered.
- RemoveAsWritten: in the code, `curr.right = curr.left` makes one node object
  the left and the right child at once. The immutable model holds two equal
  copies instead. In the code, a later write below one slot also shows
  through the other; in the model it does not. After such a removal, later
  results of the model can therefore differ from the code's. The corrected
  removal never shares a node.
- BstTree.NewNode, LinkedList.CreateNode and Seqs.Reverse carry small
  contracts or none; what they promise is stated by BstTree.NewNodeSpec,
  LinkedList.CreateNodeAlone and Seqs.ReverseIndex.
- BstTree.Remove and BstTree.RemoveAsWritten require the tree invariant, on
  which the removal lemmas rely. The corrected removal and `Add` keep it, but
  the code's removal can break it (BstTree.RemoveAsWrittenLeavesNode), so the
  model does not follow the code through further removals after the defect.
- RemoveAsWritten: the unconditional `size--` at bst/bst.go:158 is not wrapped.
  Repeating the defective removal, e.g. `Remove(1, true)` on the tree built by
  `Add(2)`, `Add(1)`, drives the code's `size` through 1 and 0 to 2^64 - 1; the
  model stops at the first removal, because of the requires above.
- Tests and examples are restated as scenario members. Printing and the `testing`
  package are not modelled, and neither is the length test's interleaving of
  `Size` calls.
- Concurrency: none exists in the source.

## Findings

| source | as written | input that shows it | evidently intended | confidence | as-written member | corrected member |
|---|---|---|---|---|---|---|
| bst/bst.go:99-158 | The search loop sets `parent = curr` before the equality test. For a non-root node with at most one child, the splice then writes `curr.right = child` on the node itself. The node stays in the tree while `size` drops. | A tree from `Add(2)`, `Add(1)`, then `Remove(1, true)`. The tree is unchanged, 1 is still contained, and `size` is 1 for two nodes. | The node is unlinked from its real parent, as the doc comment at bst/bst.go:91-93 says ("remove the node"). | not executed | BstTree.RemoveAsWrittenKeepsLeaf | BstTree.RemoveSplicesAtParent |

In the two-children case, the code copies only the successor's `Val` into the
removed node, not its `Occurs` (bst/bst.go:135). The node keeps its own counter,
as BstTree.RemoveNodeTwoChildren states. The model follows the code here, as it
does everywhere else except for the splice above.
