/** The behaviour the repository's linked-list tests and example check
    (linked-list/linked_list_test.go, linked-list/example_test.go),
    derived from the model's contracts on the same inputs. */
module ListScenarios {
  import opened Exception
  import opened LinkedList

  /** The package example: 12 at position 0, 11 and 10 in front, 15 at
      the back, 13 at position 3, 16 at position 5. */
  method ExampleOrder() returns (l: List<int>)
    ensures Valid(l)
    ensures Abs(l) == [10, 11, 12, 13, 15, 16]
  {
    l := New<int>();
    l := Add(l, 0, 12);
    AddFirstSpec(l, 11);
    l := AddFirst(l, 11);
    AddFirstSpec(l, 10);
    l := AddFirst(l, 10);
    AddLastSpec(l, 15);
    l := AddLast(l, 15);
    l := Add(l, 3, 13);
    l := Add(l, 5, 16);
  }

  /** The add test: every way of adding, ending with a position one past
      the end. */
  method AddOrder() returns (l: List<int>)
    ensures Valid(l)
    ensures Abs(l) == [0, 1, 2, 3, 4, 5]
  {
    l := New<int>();
    l := Add(l, 0, 2);
    AddFirstSpec(l, 1);
    l := AddFirst(l, 1);
    AddLastSpec(l, 3);
    l := AddLast(l, 3);
    AddFirstSpec(l, 0);
    l := AddFirst(l, 0);
    AddLastSpec(l, 4);
    l := AddLast(l, 4);
    l := Add(l, 5, 5);
  }

  /** A list built by appending `0, 1, ..., n - 1`. */
  method Count(n: nat) returns (l: List<int>)
    ensures Valid(l)
    ensures |Abs(l)| == n
    ensures forall i :: 0 <= i < n ==> Abs(l)[i] == i
  {
    l := New<int>();
    for k := 0 to n
      invariant Valid(l)
      invariant |Abs(l)| == k
      invariant forall i :: 0 <= i < k ==> Abs(l)[i] == i
    {
      AddLastSpec(l, k);
      l := AddLast(l, k);
    }
  }

  /** The remove test: position 5 of a five-element list is out of range
      `[0, 4]`; removing positions 1, 3, 0 leaves `[2, 3]`. */
  method RemoveOrder() returns (err: Result<int>, l: List<int>)
    ensures err == Failure(IndexOutOfBound(0, 4))
    ensures Valid(l)
    ensures Abs(l) == [2, 3]
  {
    var full := Count(5);
    assert Abs(full) == [0, 1, 2, 3, 4];
    err, l := RemoveSteps(full);
  }

  /** The remove test's steps on `0, 1, 2, 3, 4`. */
  method RemoveSteps(l0: List<int>) returns (err: Result<int>, l: List<int>)
    requires Valid(l0) && Abs(l0) == [0, 1, 2, 3, 4]
    ensures err == Failure(IndexOutOfBound(0, 4))
    ensures Valid(l)
    ensures Abs(l) == [2, 3]
  {
    l, err := Remove(l0, 5);
    var removed;
    l, removed := Remove(l, 1);
    assert Abs(l) == [0, 2, 3, 4];
    l, removed := Remove(l, 3);
    assert Abs(l) == [0, 2, 3];
    l, removed := Remove(l, 0);
  }

  /** The list `[0, 4, 2, 3, 4, 5]` of the get test. */
  method GetList() returns (l: List<int>)
    ensures Valid(l)
    ensures Abs(l) == [0, 4, 2, 3, 4, 5]
  {
    l := New<int>();
    AddLastSpec(l, 0);
    l := AddLast(l, 0);
    AddLastSpec(l, 4);
    l := AddLast(l, 4);
    AddLastSpec(l, 2);
    l := AddLast(l, 2);
    AddLastSpec(l, 3);
    l := AddLast(l, 3);
    AddLastSpec(l, 4);
    l := AddLast(l, 4);
    AddLastSpec(l, 5);
    l := AddLast(l, 5);
  }

  /** The get test's reads: first and last values, an out-of-range
      position, membership, and first and last positions. */
  method GetResults() returns (first: int, last: int, at6: Result<int>, has3: bool, hasMinus3: bool,
                               first4: int, first7: int, last4: int, last7: int)
    ensures first == 0 && last == 5
    ensures at6 == Failure(IndexOutOfBound(0, 5))
    ensures has3 && !hasMinus3
    ensures first4 == 1 && first7 == -1
    ensures last4 == 4 && last7 == -1
  {
    var l := GetList();
    first, last, at6, has3, hasMinus3 := GetReads(l);
    first4, first7 := GetFirstPositions(l);
    last4, last7 := GetLastPositions(l);
  }

  /** First, last, an out-of-range position and membership on the get
      test's list. */
  method GetReads(l: List<int>) returns (first: int, last: int, at6: Result<int>, has3: bool, hasMinus3: bool)
    requires Valid(l) && Abs(l) == [0, 4, 2, 3, 4, 5]
    ensures first == 0 && last == 5
    ensures at6 == Failure(IndexOutOfBound(0, 5))
    ensures has3 && !hasMinus3
  {
    first := GetFirst(l, 0);
    last := GetLast(l, 0);
    at6 := Get(l, 6);
    has3 := Contains(l, 3);
    hasMinus3 := Contains(l, -3);
  }

  /** First positions of a repeated and of an absent value on the get
      test's list. */
  method GetFirstPositions(l: List<int>) returns (first4: int, first7: int)
    requires Valid(l) && Abs(l) == [0, 4, 2, 3, 4, 5]
    ensures first4 == 1 && first7 == -1
  {
    first4 := IndexOf(l, 4);
    first7 := IndexOf(l, 7);
    assert Abs(l)[1] == 4;
  }

  /** Last positions of a repeated and of an absent value on the get
      test's list. */
  method GetLastPositions(l: List<int>) returns (last4: int, last7: int)
    requires Valid(l) && Abs(l) == [0, 4, 2, 3, 4, 5]
    ensures last4 == 4 && last7 == -1
  {
    last4 := LastIndexOf(l, 4);
    last7 := LastIndexOf(l, 7);
    assert Abs(l)[4] == 4;
  }

  /** On an empty list the reported range ends at the largest `uint`,
      and the first and last values are the zero value. */
  method EmptyReads() returns (get: Result<int>, remove: Result<int>, first: int, last: int)
    ensures get == Failure(IndexOutOfBound(0, 0xFFFF_FFFF_FFFF_FFFF))
    ensures remove == get
    ensures first == 0 && last == 0
  {
    var l := New<int>();
    get := Get(l, 0);
    var after;
    after, remove := Remove(l, 0);
    first := GetFirst(l, 0);
    last := GetLast(l, 0);
  }
}
