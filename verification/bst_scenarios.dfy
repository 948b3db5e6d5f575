/** The behaviour the repository's BST tests and example check
    (bst/bst_test.go, bst/example_test.go), derived from the model's
    contracts on the same inputs. */
module BstScenarios {
  import opened BstTree
  import opened BstTraversal

  /** The tree the tests build by adding 8, 3, 1, 6, 4, 7, 10, 14, 13. */
  function SampleTree(): Tree
  {
    Node(8, 1,
      Node(3, 1, Node(1, 1, Nil, Nil), Node(6, 1, Node(4, 1, Nil, Nil), Node(7, 1, Nil, Nil))),
      Node(10, 1, Nil, Node(14, 1, Node(13, 1, Nil, Nil), Nil)))
  }

  lemma SampleBuilt()
    ensures Add(Add(Add(Add(Add(Add(Add(Add(Add(Empty(), 8), 3), 1), 6), 4), 7), 10), 14), 13)
         == BST(SampleTree(), 9)
  {
  }

  lemma SampleValid()
    ensures Valid(BST(SampleTree(), 9))
  {
    var b := Empty();
    AddPreservesValid(b, 8); b := Add(b, 8);
    AddPreservesValid(b, 3); b := Add(b, 3);
    AddPreservesValid(b, 1); b := Add(b, 1);
    AddPreservesValid(b, 6); b := Add(b, 6);
    AddPreservesValid(b, 4); b := Add(b, 4);
    AddPreservesValid(b, 7); b := Add(b, 7);
    AddPreservesValid(b, 10); b := Add(b, 10);
    AddPreservesValid(b, 14); b := Add(b, 14);
    AddPreservesValid(b, 13); b := Add(b, 13);
    SampleBuilt();
  }

  lemma SampleInOrderSeq()
    ensures InOrderSeq(SampleTree()) == [1, 3, 4, 6, 7, 8, 10, 13, 14]
  {
  }

  lemma SamplePreOrderSeq()
    ensures PreOrderSeq(SampleTree()) == [8, 3, 1, 6, 4, 7, 10, 14, 13]
  {
  }

  lemma SamplePostOrderSeq()
    ensures PostOrderSeq(SampleTree()) == [1, 4, 7, 6, 3, 13, 14, 10, 8]
  {
  }

  /** The three iterative walks of the sample tree give the orders the
      tests expect. */
  method SampleTraversals() returns (inOrder: seq<int>, preOrder: seq<int>, postOrder: seq<int>)
    ensures inOrder == [1, 3, 4, 6, 7, 8, 10, 13, 14]
    ensures preOrder == [8, 3, 1, 6, 4, 7, 10, 14, 13]
    ensures postOrder == [1, 4, 7, 6, 3, 13, 14, 10, 8]
  {
    SampleValid();
    SampleInOrderSeq();
    SamplePreOrderSeq();
    SamplePostOrderSeq();
    inOrder := InOrder(BST(SampleTree(), 9));
    assert inOrder == InOrderSeq(SampleTree());
    preOrder := PreOrder(BST(SampleTree(), 9));
    assert preOrder == PreOrderSeq(SampleTree());
    postOrder := PostOrder(BST(SampleTree(), 9));
    assert postOrder == PostOrderSeq(SampleTree());
  }

  /** The size test's steps on any valid tree holding `6` and not `69`:
      adding a present value keeps the size, adding an absent one grows it,
      removing one occurrence of a value seen several times keeps it,
      removing the node regardless of its counter shrinks it, and `Init`
      empties the tree. The removals are the code's own: a decrement is one of
      the paths it gets right, and its full removal drops the size exactly as
      the corrected one does, whatever the splice leaves behind. */
  method SizeSteps(b0: BST) returns (sizes: seq<nat>)
    requires Valid(b0) && 6 in Values(b0.root) && 69 !in Values(b0.root)
    ensures sizes == [b0.size, b0.size, b0.size + 1, b0.size + 1, b0.size, 0]
  {
    var b := b0;
    sizes := [b.size];
    PresentIsCounted(b, 6);
    AddPresent(b, 6);
    AddPreservesValid(b, 6);
    b := Add(b, 6);
    sizes := sizes + [b.size];
    AddAbsent(b, 69);
    AddPreservesValid(b, 69);
    b := Add(b, 69);
    sizes := sizes + [b.size];
    AddPresent(b, 6);
    AddPreservesValid(b, 6);
    b := Add(b, 6);
    AddPresent(b, 6);
    AddPreservesValid(b, 6);
    b := Add(b, 6);
    RemoveDecrements(b, 6);
    RemovePreservesValid(b, 6, false);
    RemoveAsWrittenCorrectPaths(b, 6, false);
    b := RemoveAsWritten(b, 6, false);
    sizes := sizes + [b.size];
    FindInValues(b.root, 6);
    RemoveFull(b, 6, true);
    b := RemoveAsWritten(b, 6, true);
    sizes := sizes + [b.size];
    b := Empty();
    sizes := sizes + [b.size];
  }

  lemma SampleMembers()
    ensures 6 in Values(SampleTree()) && 69 !in Values(SampleTree())
  {
    assert 6 in Values(Node(6, 1, Node(4, 1, Nil, Nil), Node(7, 1, Nil, Nil)));
  }

  /** The sample tree with its size: valid, holding `6` and not `69`. */
  method Sample() returns (b: BST)
    ensures Valid(b) && b.size == 9
    ensures 6 in Values(b.root) && 69 !in Values(b.root)
  {
    SampleValid();
    SampleMembers();
    b := BST(SampleTree(), 9);
  }

  /** The size test on the sample tree. */
  method SampleSizes() returns (sizes: seq<nat>)
    ensures sizes == [9, 9, 10, 10, 9, 0]
  {
    var b := Sample();
    sizes := SizeSteps(b);
  }

  /** The tree the contains test builds by adding 12, 13, 10. */
  function ContainsTree(): Tree
  {
    Node(12, 1, Node(10, 1, Nil, Nil), Node(13, 1, Nil, Nil))
  }

  lemma ContainsBuilt()
    ensures Add(Add(Add(Empty(), 12), 13), 10) == BST(ContainsTree(), 3)
  {
  }

  /** The contains test: after adding 12, 13, 10 the tree holds 13 but
      not 3. */
  method SampleContains() returns (has13: bool, has3: bool)
    ensures has13 && !has3
  {
    ContainsBuilt();
    var b := BST(ContainsTree(), 3);
    has13 := Contains(b, 13);
    assert Find(ContainsTree(), 13).Node?;
    has3 := Contains(b, 3);
    assert Find(ContainsTree(), 3) == Nil;
  }

  /** The package example: adding 40, 30, 25, 35, 50, 45, 60, 40. */
  function ExampleTree(): Tree
  {
    Node(40, 2, Node(30, 1, Node(25, 1, Nil, Nil), Node(35, 1, Nil, Nil)),
                Node(50, 1, Node(45, 1, Nil, Nil), Node(60, 1, Nil, Nil)))
  }

  lemma ExampleBuilt()
    ensures Add(Add(Add(Add(Add(Add(Add(Add(Empty(), 40), 30), 25), 35), 50), 45), 60), 40)
         == BST(ExampleTree(), 7)
  {
  }

  lemma ExampleValid()
    ensures Valid(BST(ExampleTree(), 7))
  {
    var b := Empty();
    AddPreservesValid(b, 40); b := Add(b, 40);
    AddPreservesValid(b, 30); b := Add(b, 30);
    AddPreservesValid(b, 25); b := Add(b, 25);
    AddPreservesValid(b, 35); b := Add(b, 35);
    AddPreservesValid(b, 50); b := Add(b, 50);
    AddPreservesValid(b, 45); b := Add(b, 45);
    AddPreservesValid(b, 60); b := Add(b, 60);
    AddPreservesValid(b, 40); b := Add(b, 40);
    ExampleBuilt();
  }

  lemma ExampleInOrderSeq()
    ensures InOrderSeq(ExampleTree()) == [25, 30, 35, 40, 45, 50, 60]
  {
  }

  lemma ExampleCount()
    ensures NodeCount(ExampleTree()) == 7
  {
  }

  /** The example's output: the sorted distinct values, and the root 40
      seen twice. */
  method ExampleOutput() returns (values: seq<int>, rootVal: int, rootOccurs: nat)
    ensures values == [25, 30, 35, 40, 45, 50, 60]
    ensures rootVal == 40 && rootOccurs == 2
  {
    var b := BST(ExampleTree(), 7);
    rootVal := b.root.val;
    rootOccurs := b.root.occurs;
    ExampleValid();
    ExampleCount();
    ExampleInOrderSeq();
    values := InOrder(b);
  }
}
