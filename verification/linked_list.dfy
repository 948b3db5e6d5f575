/** The doubly linked list of linked-list/linked_list.go.

    The Go heap is modelled as an arena: `nodes` holds every node ever
    created, and a `Link` is either nil or the slot of a node.  A node that
    is removed from the list stays in the arena, unreachable, exactly as it
    would stay on the heap until collected.  The list's contents are the
    values met by following `next` from `head` for `size` steps. */
module LinkedList {
  import opened Exception
  import opened Seqs

  /** A `*Node[T]`: nil, or the node in slot `index` of the arena. */
  datatype Link = Null | At(index: nat)

  datatype Node<T> = Node(val: T, next: Link, prev: Link)

  /** `LinkedList[T]`: the arena stands for the heap the pointers reach. */
  datatype List<T> = List(nodes: seq<Node<T>>, head: Link, tail: Link, size: nat)

  /** The result of `Get` and `Remove`: the value, or the error. */
  datatype Result<T> = Ok(value: T) | Failure(error: IndexOutOfBound)

  /** `createNode`: a detached node. */
  function CreateNode<T>(x: T): Node<T>
  {
    Node(x, Null, Null)
  }

  /** A created node, made both head and tail of a one-node list, forms a
      valid list holding just its value. */
  lemma CreateNodeAlone<T>(x: T)
    ensures Valid(List([CreateNode(x)], At(0), At(0), 1))
    ensures Abs(List([CreateNode(x)], At(0), At(0), 1)) == [x]
  {
    Establish(List([CreateNode(x)], At(0), At(0), 1), [0]);
  }

  /** `p.next = link`.  A write through nil or a dangling link does
      nothing; on a valid list none is ever performed. */
  function SetNext<T>(nodes: seq<Node<T>>, p: Link, link: Link): seq<Node<T>>
  {
    if p.At? && p.index < |nodes| then nodes[p.index := nodes[p.index].(next := link)] else nodes
  }

  /** `p.prev = link`, under the same convention as `SetNext`. */
  function SetPrev<T>(nodes: seq<Node<T>>, p: Link, link: Link): seq<Node<T>>
  {
    if p.At? && p.index < |nodes| then nodes[p.index := nodes[p.index].(prev := link)] else nodes
  }

  // ---------------------------------------------------------------------
  // The link invariant
  // ---------------------------------------------------------------------

  /** The link to the `i`-th node of the order `o`; nil off either end. */
  function LinkTo(o: seq<nat>, i: int): Link
  {
    if 0 <= i < |o| then At(o[i]) else Null
  }

  ghost predicate InArena<T>(nodes: seq<Node<T>>, o: seq<nat>)
  {
    forall i :: 0 <= i < |o| ==> o[i] < |nodes|
  }

  ghost predicate Distinct(o: seq<nat>)
  {
    forall i, j :: 0 <= i < j < |o| ==> o[i] != o[j]
  }

  /** The nodes in slots `o`, in that order, form a doubly linked chain
      from `head` to `tail`: the first node's `prev` and the last node's
      `next` are nil, and every other link points at the neighbour in `o`. */
  ghost predicate LinkedAs<T>(nodes: seq<Node<T>>, head: Link, tail: Link, o: seq<nat>)
  {
    && InArena(nodes, o)
    && Distinct(o)
    && head == LinkTo(o, 0)
    && tail == LinkTo(o, |o| - 1)
    && (forall i {:trigger nodes[o[i]]} :: 0 <= i < |o| ==> nodes[o[i]].next == LinkTo(o, i + 1))
    && (forall i {:trigger nodes[o[i]]} :: 0 <= i < |o| ==> nodes[o[i]].prev == LinkTo(o, i - 1))
  }

  /** The slots visited by following `next` from `from`, at most `n` of
      them; the walk stops at nil. */
  function Walk<T>(nodes: seq<Node<T>>, from: Link, n: nat): seq<nat>
    decreases n
  {
    if n == 0 || from.Null? || from.index >= |nodes| then []
    else [from.index] + Walk(nodes, nodes[from.index].next, n - 1)
  }

  /** The slots visited by following `prev` from `from`, at most `n`. */
  function WalkBack<T>(nodes: seq<Node<T>>, from: Link, n: nat): seq<nat>
    decreases n
  {
    if n == 0 || from.Null? || from.index >= |nodes| then []
    else [from.index] + WalkBack(nodes, nodes[from.index].prev, n - 1)
  }

  /** The slots of the list's nodes, head first. */
  ghost function Order<T>(l: List<T>): seq<nat>
  {
    Walk(l.nodes, l.head, l.size)
  }

  /** The representation invariant every list reachable through the
      operations keeps. */
  ghost predicate Valid<T>(l: List<T>)
  {
    |Order(l)| == l.size && LinkedAs(l.nodes, l.head, l.tail, Order(l))
  }

  /** The values held in slots `o`, in that order. */
  ghost function ValuesOf<T>(nodes: seq<Node<T>>, o: seq<nat>): seq<T>
    requires InArena(nodes, o)
  {
    seq(|o|, i requires 0 <= i < |o| => nodes[o[i]].val)
  }

  /** The abstract sequence a valid list stands for. */
  ghost function Abs<T>(l: List<T>): seq<T>
    requires Valid(l)
  {
    ValuesOf(l.nodes, Order(l))
  }

  /** Walking forward from the `k`-th node of a chain visits the rest of
      the chain. */
  lemma {:induction false} WalkSuffix<T>(nodes: seq<Node<T>>, head: Link, tail: Link, o: seq<nat>, k: nat)
    requires LinkedAs(nodes, head, tail, o)
    requires k <= |o|
    ensures Walk(nodes, LinkTo(o, k), |o| - k) == o[k..]
    decreases |o| - k
  {
    if k < |o| {
      WalkSuffix(nodes, head, tail, o, k + 1);
      assert nodes[o[k]].next == LinkTo(o, k + 1);
      assert o[k..] == [o[k]] + o[k + 1..];
    }
  }

  /** Walking backward from the `k`-th node of a chain visits the nodes
      before it, nearest first. */
  lemma {:induction false} WalkBackPrefix<T>(nodes: seq<Node<T>>, head: Link, tail: Link, o: seq<nat>, k: int)
    requires LinkedAs(nodes, head, tail, o)
    requires -1 <= k < |o|
    ensures WalkBack(nodes, LinkTo(o, k), k + 1) == Reverse(o[..k + 1])
    decreases k + 1
  {
    if k >= 0 {
      WalkBackPrefix(nodes, head, tail, o, k - 1);
      assert WalkBack(nodes, LinkTo(o, k), k + 1) == [o[k]] + Reverse(o[..k]) by {
        assert nodes[o[k]].prev == LinkTo(o, k - 1);
      }
      assert o[..k + 1] == o[..k] + [o[k]];
      ReverseSnoc(o[..k], o[k]);
    }
  }

  /** A chain of the right length is the list: its order is the one the
      list's forward walk finds. */
  lemma Establish<T>(l: List<T>, o: seq<nat>)
    requires LinkedAs(l.nodes, l.head, l.tail, o)
    requires |o| == l.size
    ensures Valid(l)
    ensures Order(l) == o
  {
    WalkSuffix(l.nodes, l.head, l.tail, o, 0);
    assert o[0..] == o;
  }

  /** The link invariant, as the package comment promises iteration:
      head and tail are nil exactly when the list is empty, the head has no
      `prev` and the tail no `next`, walking forward from the head visits
      `size` nodes, and walking backward from the tail visits the same
      nodes in reverse. */
  lemma {:induction false} LinkInvariant<T>(l: List<T>)
    requires Valid(l)
    ensures l.head.Null? <==> l.size == 0
    ensures l.tail.Null? <==> l.size == 0
    ensures l.size > 0 ==> l.head.index < |l.nodes| && l.nodes[l.head.index].prev.Null?
    ensures l.size > 0 ==> l.tail.index < |l.nodes| && l.nodes[l.tail.index].next.Null?
    ensures |Walk(l.nodes, l.head, l.size)| == l.size
    ensures WalkBack(l.nodes, l.tail, l.size) == Reverse(Walk(l.nodes, l.head, l.size))
  {
    var o := Order(l);
    WalkBackPrefix(l.nodes, l.head, l.tail, o, |o| - 1);
    assert o[..|o|] == o;
  }

  /** A pointer write keeps the arena's size and every value. */
  lemma SetNextFrame<T>(nodes: seq<Node<T>>, p: Link, link: Link)
    ensures |SetNext(nodes, p, link)| == |nodes|
    ensures forall k :: 0 <= k < |nodes| ==> SetNext(nodes, p, link)[k].val == nodes[k].val
  {
  }

  lemma SetPrevFrame<T>(nodes: seq<Node<T>>, p: Link, link: Link)
    ensures |SetPrev(nodes, p, link)| == |nodes|
    ensures forall k :: 0 <= k < |nodes| ==> SetPrev(nodes, p, link)[k].val == nodes[k].val
  {
  }

  /** The values of a chain extended at the front by the fresh slot. */
  lemma ConsValues<T>(nodes: seq<Node<T>>, nodes': seq<Node<T>>, o: seq<nat>, x: T)
    requires InArena(nodes, o)
    requires |nodes'| == |nodes| + 1 && nodes'[|nodes|].val == x
    requires forall k :: 0 <= k < |nodes| ==> nodes'[k].val == nodes[k].val
    ensures InArena(nodes', [|nodes|] + o)
    ensures ValuesOf(nodes', [|nodes|] + o) == [x] + ValuesOf(nodes, o)
  {
    var o' := [|nodes|] + o;
    var v := ValuesOf(nodes, o);
    forall i | 0 <= i < |o'|
      ensures o'[i] < |nodes'|
      ensures nodes'[o'[i]].val == ([x] + v)[i]
    {
      if i > 0 {
        assert o'[i] == o[i - 1];
      }
    }
  }

  /** The values of a chain extended at the back by the fresh slot. */
  lemma SnocValues<T>(nodes: seq<Node<T>>, nodes': seq<Node<T>>, o: seq<nat>, x: T)
    requires InArena(nodes, o)
    requires |nodes'| == |nodes| + 1 && nodes'[|nodes|].val == x
    requires forall k :: 0 <= k < |nodes| ==> nodes'[k].val == nodes[k].val
    ensures InArena(nodes', o + [|nodes|])
    ensures ValuesOf(nodes', o + [|nodes|]) == ValuesOf(nodes, o) + [x]
  {
    var o' := o + [|nodes|];
    var v := ValuesOf(nodes, o);
    forall i | 0 <= i < |o'|
      ensures o'[i] < |nodes'|
      ensures nodes'[o'[i]].val == (v + [x])[i]
    {
      if i < |o| {
        assert o'[i] == o[i];
      }
    }
  }

  // ---------------------------------------------------------------------
  // Init, AddFirst, AddLast
  // ---------------------------------------------------------------------

  /** `Init`: clear the list, whatever it held, to a valid empty one.  The
      nodes stay in the arena, unreachable. */
  function Init<T>(l: List<T>): (r: List<T>)
    ensures Valid(r) && Abs(r) == [] && r.size == 0
    ensures r.nodes == l.nodes
  {
    Establish(l.(head := Null, tail := Null, size := 0), []);
    l.(head := Null, tail := Null, size := 0)
  }

  /** `New`: a valid empty list with an empty heap. */
  function New<T>(): (r: List<T>)
    ensures Valid(r) && Abs(r) == [] && r.size == 0
  {
    Establish<T>(List([], Null, Null, 0), []);
    List([], Null, Null, 0)
  }

  /** `AddFirst`: a new node becomes the head; on an empty list it is the
      tail as well. */
  function AddFirst<T>(l: List<T>, x: T): (r: List<T>)
    ensures r.size == l.size + 1 && |r.nodes| == |l.nodes| + 1
    ensures r.head == At(|l.nodes|)
    ensures r.nodes[|l.nodes|].val == x && r.nodes[|l.nodes|].next == l.head
  {
    var k := |l.nodes|;
    if l.head.Null? then
      List(l.nodes + [CreateNode(x)], At(k), At(k), l.size + 1)
    else
      List(SetPrev(l.nodes + [CreateNode(x).(next := l.head)], l.head, At(k)), At(k), l.tail, l.size + 1)
  }

  /** `AddLast`: a new node becomes the tail; on an empty list it is the
      head as well. */
  function AddLast<T>(l: List<T>, x: T): (r: List<T>)
    ensures r.size == l.size + 1 && |r.nodes| == |l.nodes| + 1
    ensures r.tail == At(|l.nodes|)
    ensures r.nodes[|l.nodes|].val == x
    ensures l.head.At? ==> r.nodes[|l.nodes|].prev == l.tail
  {
    var k := |l.nodes|;
    if l.head.Null? then
      List(l.nodes + [CreateNode(x)], At(k), At(k), l.size + 1)
    else
      List(SetNext(l.nodes + [CreateNode(x).(prev := l.tail)], l.tail, At(k)), l.head, At(k), l.size + 1)
  }

  /** A slot outside the arena is not part of any chain in it. */
  lemma FreshSlot<T>(nodes: seq<Node<T>>, o: seq<nat>)
    requires InArena(nodes, o)
    ensures |nodes| !in o
  {
  }

  lemma {:induction false} AddFirstLinked<T>(l: List<T>, x: T)
    requires Valid(l)
    ensures LinkedAs(AddFirst(l, x).nodes, AddFirst(l, x).head, AddFirst(l, x).tail, [|l.nodes|] + Order(l))
  {
    var o := Order(l);
    var k := |l.nodes|;
    var r := AddFirst(l, x);
    var o' := [k] + o;
    FreshSlot(l.nodes, o);
    if l.head.Null? {
      assert o == [];
    } else {
      assert |o| > 0;
      forall i {:trigger r.nodes[o'[i]]} | 0 <= i < |o'|
        ensures r.nodes[o'[i]].next == LinkTo(o', i + 1)
        ensures r.nodes[o'[i]].prev == LinkTo(o', i - 1)
      {
        if i == 0 {
        } else if i == 1 {
          assert o'[i] == o[0];
          assert l.nodes[o[0]].next == LinkTo(o, 1);
        } else {
          assert o'[i] == o[i - 1] != o[0];
          assert l.nodes[o[i - 1]].next == LinkTo(o, i);
          assert l.nodes[o[i - 1]].prev == LinkTo(o, i - 2);
        }
      }
    }
  }

  /** `AddFirst` puts `x` in front of the abstract sequence. */
  lemma AddFirstSpec<T>(l: List<T>, x: T)
    requires Valid(l)
    ensures Valid(AddFirst(l, x))
    ensures AddFirst(l, x).size == l.size + 1
    ensures Abs(AddFirst(l, x)) == [x] + Abs(l)
  {
    var r := AddFirst(l, x);
    AddFirstLinked(l, x);
    Establish(r, [|l.nodes|] + Order(l));
    SetPrevFrame(l.nodes + [CreateNode(x).(next := l.head)], l.head, At(|l.nodes|));
    ConsValues(l.nodes, r.nodes, Order(l), x);
  }

  lemma {:induction false} AddLastLinked<T>(l: List<T>, x: T)
    requires Valid(l)
    ensures LinkedAs(AddLast(l, x).nodes, AddLast(l, x).head, AddLast(l, x).tail, Order(l) + [|l.nodes|])
  {
    var o := Order(l);
    var k := |l.nodes|;
    var r := AddLast(l, x);
    var o' := o + [k];
    var n := |o|;
    FreshSlot(l.nodes, o);
    if l.head.Null? {
      assert o == [];
    } else {
      assert n > 0;
      forall i {:trigger r.nodes[o'[i]]} | 0 <= i < |o'|
        ensures r.nodes[o'[i]].next == LinkTo(o', i + 1)
        ensures r.nodes[o'[i]].prev == LinkTo(o', i - 1)
      {
        if i == n {
        } else if i == n - 1 {
          assert o'[i] == o[n - 1];
          assert l.nodes[o[n - 1]].prev == LinkTo(o, n - 2);
        } else {
          assert o'[i] == o[i] != o[n - 1];
          assert l.nodes[o[i]].next == LinkTo(o, i + 1);
          assert l.nodes[o[i]].prev == LinkTo(o, i - 1);
        }
      }
    }
  }

  /** `AddLast` puts `x` behind the abstract sequence. */
  lemma AddLastSpec<T>(l: List<T>, x: T)
    requires Valid(l)
    ensures Valid(AddLast(l, x))
    ensures AddLast(l, x).size == l.size + 1
    ensures Abs(AddLast(l, x)) == Abs(l) + [x]
  {
    var r := AddLast(l, x);
    AddLastLinked(l, x);
    Establish(r, Order(l) + [|l.nodes|]);
    SetNextFrame(l.nodes + [CreateNode(x).(prev := l.tail)], l.tail, At(|l.nodes|));
    SnocValues(l.nodes, r.nodes, Order(l), x);
  }

  // ---------------------------------------------------------------------
  // Splicing in the middle and unlinking
  // ---------------------------------------------------------------------

  /** The pointer writes of `Add` at an inner position: a new node goes
      between `curr` and its predecessor. */
  function LinkBefore<T>(nodes: seq<Node<T>>, curr: Link, x: T): (r: seq<Node<T>>)
    requires curr.At? && curr.index < |nodes|
    ensures |r| == |nodes| + 1 && r[|nodes|].val == x
    ensures forall k :: 0 <= k < |nodes| ==> r[k].val == nodes[k].val
  {
    var k := |nodes|;
    var prev := nodes[curr.index].prev;
    var n := CreateNode(x).(next := curr, prev := prev);
    SetPrev(SetNext(nodes + [n], prev, At(k)), curr, At(k))
  }

  /** The pointer writes of `Remove` at an inner position: the neighbours
      of `curr` are linked to each other. */
  function Unlink<T>(nodes: seq<Node<T>>, curr: Link): (r: seq<Node<T>>)
    requires curr.At? && curr.index < |nodes|
    ensures |r| == |nodes|
    ensures forall k :: 0 <= k < |nodes| ==> r[k].val == nodes[k].val
  {
    var prev := nodes[curr.index].prev;
    var next := nodes[curr.index].next;
    SetPrev(SetNext(nodes, prev, next), next, prev)
  }

  /** What `LinkBefore` writes: the new node in the fresh slot, and one
      link in each neighbour; every other slot is untouched. */
  lemma LinkBeforeWrites<T>(nodes: seq<Node<T>>, before: nat, curr: nat, x: T)
    requires before < |nodes| && curr < |nodes| && before != curr
    requires nodes[curr].prev == At(before)
    ensures |LinkBefore(nodes, At(curr), x)| == |nodes| + 1
    ensures LinkBefore(nodes, At(curr), x)[|nodes|] == Node(x, At(curr), At(before))
    ensures LinkBefore(nodes, At(curr), x)[before] == nodes[before].(next := At(|nodes|))
    ensures LinkBefore(nodes, At(curr), x)[curr] == nodes[curr].(prev := At(|nodes|))
    ensures forall j :: 0 <= j < |nodes| && j != before && j != curr ==>
              LinkBefore(nodes, At(curr), x)[j] == nodes[j]
  {
  }

  /** The order after inserting slot `k` at position `p`, index by index. */
  lemma InsertedOrder(o: seq<nat>, p: nat, k: nat, o': seq<nat>)
    requires p <= |o|
    requires o' == o[..p] + [k] + o[p..]
    ensures |o'| == |o| + 1
    ensures forall i :: 0 <= i < p ==> o'[i] == o[i]
    ensures o'[p] == k
    ensures forall i :: p < i < |o'| ==> o'[i] == o[i - 1]
  {
  }

  /** Inserting a slot that is not yet in the order keeps it duplicate-free. */
  lemma DistinctInsert(o: seq<nat>, p: nat, k: nat, o': seq<nat>)
    requires Distinct(o)
    requires k !in o
    requires p <= |o|
    requires o' == o[..p] + [k] + o[p..]
    ensures Distinct(o')
  {
    InsertedOrder(o, p, k, o');
    forall i, j | 0 <= i < j < |o'| ensures o'[i] != o'[j] {
      if j < p {
      } else if j == p {
        assert o'[i] == o[i];
      } else if i < p {
        assert o'[i] == o[i] && o'[j] == o[j - 1];
      } else if i == p {
        assert o'[j] == o[j - 1];
      } else {
        assert o'[i] == o[i - 1] && o'[j] == o[j - 1];
      }
    }
  }

  lemma {:induction false} LinkBeforeAt<T>(nodes: seq<Node<T>>, head: Link, tail: Link, o: seq<nat>, p: nat, x: T,
                                           nodes': seq<Node<T>>, o': seq<nat>, i: nat)
    requires LinkedAs(nodes, head, tail, o)
    requires 0 < p < |o|
    requires o' == o[..p] + [|nodes|] + o[p..]
    requires nodes' == LinkBefore(nodes, At(o[p]), x)
    requires i < |o'|
    ensures o'[i] < |nodes'|
    ensures nodes'[o'[i]].next == LinkTo(o', i + 1)
    ensures nodes'[o'[i]].prev == LinkTo(o', i - 1)
  {
    var k := |nodes|;
    InsertedOrder(o, p, k, o');
    FreshSlot(nodes, o);
    assert nodes[o[p]].prev == LinkTo(o, p - 1);
    LinkBeforeWrites(nodes, o[p - 1], o[p], x);
    if i < p - 1 {
      assert nodes[o[i]].next == LinkTo(o, i + 1);
      assert nodes[o[i]].prev == LinkTo(o, i - 1);
    } else if i == p - 1 {
      assert nodes[o[p - 1]].prev == LinkTo(o, p - 2);
    } else if i == p {
    } else if i == p + 1 {
      assert nodes[o[p]].next == LinkTo(o, p + 1);
    } else {
      assert nodes[o[i - 1]].next == LinkTo(o, i);
      assert nodes[o[i - 1]].prev == LinkTo(o, i - 2);
    }
  }

  lemma {:induction false} LinkBeforeLinked<T>(nodes: seq<Node<T>>, head: Link, tail: Link, o: seq<nat>, p: nat, x: T)
    requires LinkedAs(nodes, head, tail, o)
    requires 0 < p < |o|
    ensures LinkedAs(LinkBefore(nodes, At(o[p]), x), head, tail, o[..p] + [|nodes|] + o[p..])
  {
    var k := |nodes|;
    var nodes' := LinkBefore(nodes, At(o[p]), x);
    var o' := o[..p] + [k] + o[p..];
    FreshSlot(nodes, o);
    InsertedOrder(o, p, k, o');
    DistinctInsert(o, p, k, o');
    forall i {:trigger nodes'[o'[i]]} | 0 <= i < |o'|
      ensures o'[i] < |nodes'|
      ensures nodes'[o'[i]].next == LinkTo(o', i + 1)
      ensures nodes'[o'[i]].prev == LinkTo(o', i - 1)
    {
      LinkBeforeAt(nodes, head, tail, o, p, x, nodes', o', i);
    }
    assert o'[0] == o[0];
    assert o'[|o|] == o[|o| - 1];
  }

  /** What `Unlink` writes: one link in each neighbour of the removed
      node; every other slot is untouched. */
  lemma UnlinkWrites<T>(nodes: seq<Node<T>>, before: nat, curr: nat, after: nat)
    requires before < |nodes| && curr < |nodes| && after < |nodes|
    requires before != after
    requires nodes[curr].prev == At(before) && nodes[curr].next == At(after)
    ensures |Unlink(nodes, At(curr))| == |nodes|
    ensures Unlink(nodes, At(curr))[before] == nodes[before].(next := At(after))
    ensures Unlink(nodes, At(curr))[after] == nodes[after].(prev := At(before))
    ensures forall j :: 0 <= j < |nodes| && j != before && j != after ==>
              Unlink(nodes, At(curr))[j] == nodes[j]
  {
  }

  lemma {:induction false} UnlinkAt<T>(nodes: seq<Node<T>>, head: Link, tail: Link, o: seq<nat>, p: nat, i: nat)
    requires LinkedAs(nodes, head, tail, o)
    requires 0 < p < |o| - 1
    requires i < |o| - 1
    ensures (o[..p] + o[p + 1..])[i] < |Unlink(nodes, At(o[p]))|
    ensures Unlink(nodes, At(o[p]))[(o[..p] + o[p + 1..])[i]].next == LinkTo(o[..p] + o[p + 1..], i + 1)
    ensures Unlink(nodes, At(o[p]))[(o[..p] + o[p + 1..])[i]].prev == LinkTo(o[..p] + o[p + 1..], i - 1)
  {
    var o' := o[..p] + o[p + 1..];
    assert nodes[o[p]].prev == LinkTo(o, p - 1);
    assert nodes[o[p]].next == LinkTo(o, p + 1);
    UnlinkWrites(nodes, o[p - 1], o[p], o[p + 1]);
    if i < p - 1 {
      assert o'[i] == o[i];
      assert nodes[o[i]].next == LinkTo(o, i + 1);
      assert nodes[o[i]].prev == LinkTo(o, i - 1);
    } else if i == p - 1 {
      assert o'[i] == o[p - 1];
      assert nodes[o[p - 1]].prev == LinkTo(o, p - 2);
    } else if i == p {
      assert o'[i] == o[p + 1];
      assert nodes[o[p + 1]].next == LinkTo(o, p + 2);
    } else {
      assert o'[i] == o[i + 1];
      assert nodes[o[i + 1]].next == LinkTo(o, i + 2);
      assert nodes[o[i + 1]].prev == LinkTo(o, i);
    }
  }

  lemma {:induction false} UnlinkLinked<T>(nodes: seq<Node<T>>, head: Link, tail: Link, o: seq<nat>, p: nat)
    requires LinkedAs(nodes, head, tail, o)
    requires 0 < p < |o| - 1
    ensures LinkedAs(Unlink(nodes, At(o[p])), head, tail, o[..p] + o[p + 1..])
  {
    var nodes' := Unlink(nodes, At(o[p]));
    var o' := o[..p] + o[p + 1..];
    assert |o'| == |o| - 1;
    assert |nodes'| == |nodes| by {
      assert nodes[o[p]].prev == LinkTo(o, p - 1);
      assert nodes[o[p]].next == LinkTo(o, p + 1);
    }
    forall i {:trigger nodes'[o'[i]]} | 0 <= i < |o'|
      ensures nodes'[o'[i]].next == LinkTo(o', i + 1)
      ensures nodes'[o'[i]].prev == LinkTo(o', i - 1)
    {
      UnlinkAt(nodes, head, tail, o, p, i);
    }
    DistinctWithout(o, p);
    assert o'[0] == o[0] && o'[|o'| - 1] == o[|o| - 1];
  }

  /** Dropping one slot from a chain's order keeps it duplicate-free. */
  lemma DistinctWithout(o: seq<nat>, p: nat)
    requires Distinct(o)
    requires p < |o|
    ensures Distinct(o[..p] + o[p + 1..])
  {
    var o' := o[..p] + o[p + 1..];
    forall i, j | 0 <= i < j < |o'| ensures o'[i] != o'[j] {
      if i < p && j >= p {
        assert o'[j] == o[j + 1];
      } else if i >= p {
        assert o'[i] == o[i + 1] && o'[j] == o[j + 1];
      }
    }
  }

  lemma {:induction false} DropHeadLinked<T>(nodes: seq<Node<T>>, head: Link, tail: Link, o: seq<nat>)
    requires LinkedAs(nodes, head, tail, o)
    requires |o| >= 2
    ensures nodes[o[0]].next == At(o[1])
    ensures LinkedAs(SetPrev(nodes, At(o[1]), Null), At(o[1]), tail, o[1..])
  {
    var nodes' := SetPrev(nodes, At(o[1]), Null);
    var o' := o[1..];
    assert nodes[o[0]].next == LinkTo(o, 1);
    forall i {:trigger nodes'[o'[i]]} | 0 <= i < |o'|
      ensures nodes'[o'[i]].next == LinkTo(o', i + 1)
      ensures nodes'[o'[i]].prev == LinkTo(o', i - 1)
    {
      assert o'[i] == o[i + 1];
      assert nodes[o[i + 1]].next == LinkTo(o, i + 2);
      assert nodes[o[i + 1]].prev == LinkTo(o, i);
    }
  }

  lemma {:induction false} DropTailLinked<T>(nodes: seq<Node<T>>, head: Link, tail: Link, o: seq<nat>)
    requires LinkedAs(nodes, head, tail, o)
    requires |o| >= 2
    ensures nodes[o[|o| - 1]].prev == At(o[|o| - 2])
    ensures LinkedAs(SetNext(nodes, At(o[|o| - 2]), Null), head, At(o[|o| - 2]), o[..|o| - 1])
  {
    var n := |o|;
    var nodes' := SetNext(nodes, At(o[n - 2]), Null);
    var o' := o[..n - 1];
    assert nodes[o[n - 1]].prev == LinkTo(o, n - 2);
    forall i {:trigger nodes'[o'[i]]} | 0 <= i < |o'|
      ensures nodes'[o'[i]].next == LinkTo(o', i + 1)
      ensures nodes'[o'[i]].prev == LinkTo(o', i - 1)
    {
      assert o'[i] == o[i];
      assert nodes[o[i]].next == LinkTo(o, i + 1);
      assert nodes[o[i]].prev == LinkTo(o, i - 1);
    }
  }

  // ---------------------------------------------------------------------
  // Add, Remove, Get
  // ---------------------------------------------------------------------

  /** Reading the node a valid list's order names. */
  lemma OrderInArena<T>(l: List<T>, i: nat)
    requires Valid(l)
    requires i < l.size
    ensures Order(l)[i] < |l.nodes|
    ensures Abs(l)[i] == l.nodes[Order(l)[i]].val
    ensures l.nodes[Order(l)[i]].next == LinkTo(Order(l), i + 1)
    ensures l.nodes[Order(l)[i]].prev == LinkTo(Order(l), i - 1)
  {
  }

  /** A cursor at position `i` of a walk is a node exactly while `i` is
      inside the list, and then it names the node holding `Abs(l)[i]`. */
  lemma Cursor<T>(l: List<T>, i: int)
    requires Valid(l)
    requires -1 <= i <= l.size
    ensures LinkTo(Order(l), i).At? <==> 0 <= i < l.size
    ensures 0 <= i < l.size ==>
              && Order(l)[i] < |l.nodes|
              && l.nodes[Order(l)[i]].val == Abs(l)[i]
              && l.nodes[Order(l)[i]].next == LinkTo(Order(l), i + 1)
              && l.nodes[Order(l)[i]].prev == LinkTo(Order(l), i - 1)
  {
    if 0 <= i < l.size {
      OrderInArena(l, i);
    }
  }

  /** What a walk along `next` relies on: each node of the order `o` holds
      the matching value of `s` and links to the next node of `o`. */
  ghost predicate ForwardChain<T>(nodes: seq<Node<T>>, o: seq<nat>, s: seq<T>)
  {
    && |s| == |o|
    && (forall i :: 0 <= i < |o| ==> o[i] < |nodes|)
    && (forall i {:trigger nodes[o[i]]} :: 0 <= i < |o| ==> nodes[o[i]].val == s[i] && nodes[o[i]].next == LinkTo(o, i + 1))
  }

  /** What a walk along `prev` relies on. */
  ghost predicate BackwardChain<T>(nodes: seq<Node<T>>, o: seq<nat>, s: seq<T>)
  {
    && |s| == |o|
    && (forall i :: 0 <= i < |o| ==> o[i] < |nodes|)
    && (forall i {:trigger nodes[o[i]]} :: 0 <= i < |o| ==> nodes[o[i]].val == s[i] && nodes[o[i]].prev == LinkTo(o, i - 1))
  }

  /** A valid list can be walked forward from its head and backward from
      its tail. */
  lemma ChainsOf<T>(l: List<T>)
    requires Valid(l)
    ensures ForwardChain(l.nodes, Order(l), Abs(l)) && l.head == LinkTo(Order(l), 0)
    ensures BackwardChain(l.nodes, Order(l), Abs(l)) && l.tail == LinkTo(Order(l), l.size - 1)
  {
  }

  lemma InsertValues<T>(nodes: seq<Node<T>>, nodes': seq<Node<T>>, o: seq<nat>, p: nat, x: T)
    requires InArena(nodes, o)
    requires p <= |o|
    requires |nodes'| == |nodes| + 1 && nodes'[|nodes|].val == x
    requires forall k :: 0 <= k < |nodes| ==> nodes'[k].val == nodes[k].val
    ensures InArena(nodes', o[..p] + [|nodes|] + o[p..])
    ensures ValuesOf(nodes', o[..p] + [|nodes|] + o[p..])
         == ValuesOf(nodes, o)[..p] + [x] + ValuesOf(nodes, o)[p..]
  {
    var o' := o[..p] + [|nodes|] + o[p..];
    var v := ValuesOf(nodes, o);
    forall i | 0 <= i < |o'|
      ensures o'[i] < |nodes'|
      ensures nodes'[o'[i]].val == (v[..p] + [x] + v[p..])[i]
    {
      if i > p {
        assert o'[i] == o[i - 1];
      }
    }
  }

  lemma RemoveValues<T>(nodes: seq<Node<T>>, nodes': seq<Node<T>>, o: seq<nat>, p: nat)
    requires InArena(nodes, o)
    requires p < |o|
    requires |nodes'| == |nodes|
    requires forall k :: 0 <= k < |nodes| ==> nodes'[k].val == nodes[k].val
    ensures InArena(nodes', o[..p] + o[p + 1..])
    ensures ValuesOf(nodes', o[..p] + o[p + 1..]) == ValuesOf(nodes, o)[..p] + ValuesOf(nodes, o)[p + 1..]
  {
    var o' := o[..p] + o[p + 1..];
    var v := ValuesOf(nodes, o);
    forall i | 0 <= i < |o'|
      ensures o'[i] < |nodes'|
      ensures nodes'[o'[i]].val == (v[..p] + v[p + 1..])[i]
    {
      if i >= p {
        assert o'[i] == o[i + 1];
      }
    }
  }

  /** The list after `Add` links a node in before position `p`, for an
      inner `p`. */
  function InsertedAt<T>(l: List<T>, curr: Link, x: T): List<T>
    requires curr.At? && curr.index < |l.nodes|
  {
    List(LinkBefore(l.nodes, curr, x), l.head, l.tail, l.size + 1)
  }

  lemma InsertedAtSpec<T>(l: List<T>, p: nat, x: T)
    requires Valid(l)
    requires 0 < p < l.size
    ensures Order(l)[p] < |l.nodes|
    ensures Valid(InsertedAt(l, At(Order(l)[p]), x))
    ensures Abs(InsertedAt(l, At(Order(l)[p]), x)) == Abs(l)[..p] + [x] + Abs(l)[p..]
  {
    var o := Order(l);
    var r := InsertedAt(l, At(o[p]), x);
    LinkBeforeLinked(l.nodes, l.head, l.tail, o, p, x);
    Establish(r, o[..p] + [|l.nodes|] + o[p..]);
    assert o[p] < |l.nodes| && l.nodes[o[p]].prev == LinkTo(o, p - 1);
    LinkBeforeWrites(l.nodes, o[p - 1], o[p], x);
    InsertValues(l.nodes, r.nodes, o, p, x);
  }

  /** The loop `Add` and `Remove` share: from the head's successor, follow
      `next` until the counter, started at 1, reaches `position`. */
  method SeekFromSecond<T>(nodes: seq<Node<T>>, head: Link, ghost o: seq<nat>, ghost s: seq<T>, position: nat)
    returns (curr: Link)
    requires ForwardChain(nodes, o, s) && head == LinkTo(o, 0)
    requires 0 < position < |o|
    ensures curr == LinkTo(o, position)
  {
    assert nodes[o[0]].next == LinkTo(o, 1);
    var i := 1;
    curr := nodes[head.index].next;
    while i != position
      invariant 1 <= i <= position
      invariant curr == LinkTo(o, i)
      decreases position - i
    {
      assert nodes[o[i]].next == LinkTo(o, i + 1);
      curr := nodes[curr.index].next;
      i := i + 1;
    }
  }

  /** The loop of `Get`: from the head, follow `next` until the counter,
      started at 0, reaches `position`. */
  method SeekFromHead<T>(nodes: seq<Node<T>>, head: Link, ghost o: seq<nat>, ghost s: seq<T>, position: nat)
    returns (curr: Link)
    requires ForwardChain(nodes, o, s) && head == LinkTo(o, 0)
    requires position < |o|
    ensures curr == LinkTo(o, position)
  {
    var i := 0;
    curr := head;
    while i != position
      invariant 0 <= i <= position
      invariant curr == LinkTo(o, i)
      decreases position - i
    {
      assert nodes[o[i]].next == LinkTo(o, i + 1);
      curr := nodes[curr.index].next;
      i := i + 1;
    }
  }

  /** `Add(position, x)`: a position at or past the end appends, position
      zero prepends, and any other position links the new node in before
      the node now at `position`. */
  method Add<T>(l: List<T>, position: nat, x: T) returns (r: List<T>)
    requires Valid(l)
    ensures Valid(r)
    ensures r.size == l.size + 1
    ensures position >= l.size ==> r == AddLast(l, x)
    ensures 0 == position < l.size ==> r == AddFirst(l, x)
    ensures position <= l.size ==> Abs(r) == Abs(l)[..position] + [x] + Abs(l)[position..]
    ensures position > l.size ==> Abs(r) == Abs(l) + [x]
  {
    if position >= l.size {
      r := AddLast(l, x);
      AddLastSpec(l, x);
      InsertAtEnd(Abs(l), x);
      return;
    }
    if position == 0 {
      r := AddFirst(l, x);
      AddFirstSpec(l, x);
      InsertAtFront(Abs(l), x);
      return;
    }
    ChainsOf(l);
    var curr := SeekFromSecond(l.nodes, l.head, Order(l), Abs(l), position);
    Cursor(l, position);
    r := InsertedAt(l, curr, x);
    InsertedAtSpec(l, position, x);
  }

  /** The four ways `Remove` unlinks the node at a valid position. */
  function RemovedAt<T>(l: List<T>, position: nat, curr: Link): List<T>
    requires Valid(l)
    requires position < l.size
    requires curr.At? && curr.index < |l.nodes|
  {
    Cursor(l, 0);
    Cursor(l, l.size - 1);
    if l.size == 1 then
      List(l.nodes, Null, Null, l.size - 1)
    else if position == 0 then
      var head := l.nodes[l.head.index].next;
      List(SetPrev(l.nodes, head, Null), head, l.tail, l.size - 1)
    else if position == l.size - 1 then
      var tail := l.nodes[l.tail.index].prev;
      List(SetNext(l.nodes, tail, Null), l.head, tail, l.size - 1)
    else
      List(Unlink(l.nodes, curr), l.head, l.tail, l.size - 1)
  }

  lemma RemovedAtLinked<T>(l: List<T>, p: nat)
    requires Valid(l)
    requires p < l.size
    ensures Order(l)[p] < |l.nodes|
    ensures var r := RemovedAt(l, p, At(Order(l)[p]));
            LinkedAs(r.nodes, r.head, r.tail, Order(l)[..p] + Order(l)[p + 1..])
  {
    var o := Order(l);
    Cursor(l, p);
    if l.size == 1 {
      assert o[..p] + o[p + 1..] == [];
    } else if p == 0 {
      DropHeadLinked(l.nodes, l.head, l.tail, o);
      assert o[..p] + o[p + 1..] == o[1..];
    } else if p == l.size - 1 {
      DropTailLinked(l.nodes, l.head, l.tail, o);
      assert o[..p] + o[p + 1..] == o[..|o| - 1];
    } else {
      UnlinkLinked(l.nodes, l.head, l.tail, o, p);
    }
  }

  /** Unlinking only rewrites links: the arena keeps its size and values. */
  lemma RemovedAtFrame<T>(l: List<T>, p: nat, curr: Link)
    requires Valid(l)
    requires p < l.size
    requires curr.At? && curr.index < |l.nodes|
    ensures |RemovedAt(l, p, curr).nodes| == |l.nodes|
    ensures forall k :: 0 <= k < |l.nodes| ==> RemovedAt(l, p, curr).nodes[k].val == l.nodes[k].val
  {
    Cursor(l, 0);
    Cursor(l, l.size - 1);
    if l.size == 1 {
    } else if p == 0 {
      SetPrevFrame(l.nodes, l.nodes[l.head.index].next, Null);
    } else if p == l.size - 1 {
      SetNextFrame(l.nodes, l.nodes[l.tail.index].prev, Null);
    } else {
      var prev := l.nodes[curr.index].prev;
      var next := l.nodes[curr.index].next;
      SetNextFrame(l.nodes, prev, next);
      SetPrevFrame(SetNext(l.nodes, prev, next), next, prev);
    }
  }

  lemma RemovedAtSpec<T>(l: List<T>, p: nat)
    requires Valid(l)
    requires p < l.size
    ensures Order(l)[p] < |l.nodes|
    ensures Valid(RemovedAt(l, p, At(Order(l)[p])))
    ensures RemovedAt(l, p, At(Order(l)[p])).size == l.size - 1
    ensures Abs(RemovedAt(l, p, At(Order(l)[p]))) == Abs(l)[..p] + Abs(l)[p + 1..]
  {
    var o := Order(l);
    RemovedAtLinked(l, p);
    var r := RemovedAt(l, p, At(o[p]));
    Establish(r, o[..p] + o[p + 1..]);
    RemovedAtFrame(l, p, At(o[p]));
    RemoveValues(l.nodes, r.nodes, o, p);
  }

  /** `Remove(position)`: out of range, the list is left alone and the
      error reports the range `[0, size - 1]`; otherwise the node at
      `position` is unlinked and its value returned.  A one-element list
      is emptied, the head and the tail are detached from their single
      neighbour, and an inner node is found by the same walk as in `Add`
      and its neighbours are linked to each other. */
  method Remove<T>(l: List<T>, position: nat) returns (r: List<T>, res: Result<T>)
    requires Valid(l)
    ensures position >= l.size ==> r == l && res == Failure(OutOfRange(l.size))
    ensures position < l.size ==>
              && Valid(r)
              && r.size == l.size - 1
              && res == Ok(Abs(l)[position])
              && Abs(r) == Abs(l)[..position] + Abs(l)[position + 1..]
  {
    if position >= l.size {
      return l, Failure(OutOfRange(l.size));
    }
    Cursor(l, 0);
    Cursor(l, l.size - 1);
    var curr: Link;
    if l.size == 1 || position == 0 {
      curr := l.head;
    } else if position == l.size - 1 {
      curr := l.tail;
    } else {
      ChainsOf(l);
      curr := SeekFromSecond(l.nodes, l.head, Order(l), Abs(l), position);
    }
    Cursor(l, position);
    r := RemovedAt(l, position, curr);
    RemovedAtSpec(l, position);
    res := Ok(l.nodes[curr.index].val);
  }

  /** `Get(position)`: out of range, the same error as `Remove`;
      otherwise the value reached by walking `next` `position` times from
      the head. */
  method Get<T>(l: List<T>, position: nat) returns (res: Result<T>)
    requires Valid(l)
    ensures position >= l.size ==> res == Failure(OutOfRange(l.size))
    ensures position < l.size ==> res == Ok(Abs(l)[position])
  {
    if position >= l.size {
      return Failure(OutOfRange(l.size));
    }
    ChainsOf(l);
    var curr := SeekFromHead(l.nodes, l.head, Order(l), Abs(l), position);
    Cursor(l, position);
    res := Ok(l.nodes[curr.index].val);
  }

  /** `GetFirst`: the head's value, or `zero` (Go's zero value of `T`)
      when the list is empty. */
  function GetFirst<T>(l: List<T>, zero: T): (r: T)
    requires Valid(l)
    ensures l.size > 0 ==> r == Abs(l)[0]
    ensures l.size == 0 ==> r == zero
  {
    if l.size > 0 then
      OrderInArena(l, 0);
      l.nodes[l.head.index].val
    else
      zero
  }

  /** `GetLast`: the tail's value, or `zero` when the list is empty. */
  function GetLast<T>(l: List<T>, zero: T): (r: T)
    requires Valid(l)
    ensures l.size > 0 ==> r == Abs(l)[l.size - 1]
    ensures l.size == 0 ==> r == zero
  {
    if l.size > 0 then
      OrderInArena(l, l.size - 1);
      l.nodes[l.tail.index].val
    else
      zero
  }

  // ---------------------------------------------------------------------
  // Searching
  // ---------------------------------------------------------------------

  /** `Contains`: walks `next` from the head until it meets `x`. */
  method Contains<T(==)>(l: List<T>, x: T) returns (found: bool)
    requires Valid(l)
    ensures found <==> x in Abs(l)
  {
    ChainsOf(l);
    found := ContainsFrom(l.nodes, l.head, Order(l), Abs(l), x);
  }

  /** The loop of `Contains`, over a chain holding `s`. */
  method ContainsFrom<T(==)>(nodes: seq<Node<T>>, head: Link, ghost o: seq<nat>, ghost s: seq<T>, x: T)
    returns (found: bool)
    requires ForwardChain(nodes, o, s) && head == LinkTo(o, 0)
    ensures found <==> x in s
  {
    ghost var i := 0;
    var curr := head;
    while curr.At?
      invariant 0 <= i <= |o|
      invariant curr == LinkTo(o, i)
      invariant forall j :: 0 <= j < i ==> s[j] != x
      decreases |o| - i
    {
      assert nodes[o[i]].val == s[i];
      if nodes[curr.index].val == x {
        return true;
      }
      curr := nodes[curr.index].next;
      i := i + 1;
    }
    return false;
  }

  /** `IndexOf`: the first position holding `x`, or -1. */
  method IndexOf<T(==)>(l: List<T>, x: T) returns (position: int)
    requires Valid(l)
    ensures -1 <= position < l.size
    ensures position == -1 <==> x !in Abs(l)
    ensures position >= 0 ==> Abs(l)[position] == x
    ensures position >= 0 ==> forall j :: 0 <= j < position ==> Abs(l)[j] != x
  {
    ChainsOf(l);
    position := IndexOfFrom(l.nodes, l.head, Order(l), Abs(l), x);
  }

  /** The loop of `IndexOf`, over a chain holding `s`. */
  method IndexOfFrom<T(==)>(nodes: seq<Node<T>>, head: Link, ghost o: seq<nat>, ghost s: seq<T>, x: T)
    returns (position: int)
    requires ForwardChain(nodes, o, s) && head == LinkTo(o, 0)
    ensures -1 <= position < |s|
    ensures position == -1 <==> x !in s
    ensures position >= 0 ==> s[position] == x
    ensures position >= 0 ==> forall j :: 0 <= j < position ==> s[j] != x
  {
    position := 0;
    var curr := head;
    while curr.At?
      invariant 0 <= position <= |o|
      invariant curr == LinkTo(o, position)
      invariant forall j :: 0 <= j < position ==> s[j] != x
      decreases |o| - position
    {
      assert nodes[o[position]].val == s[position];
      if nodes[curr.index].val == x {
        return position;
      }
      curr := nodes[curr.index].next;
      position := position + 1;
    }
    return -1;
  }

  /** `LastIndexOf`: the last position holding `x`, or -1; the walk
      follows `prev` from the tail. */
  method LastIndexOf<T(==)>(l: List<T>, x: T) returns (position: int)
    requires Valid(l)
    ensures -1 <= position < l.size
    ensures position == -1 <==> x !in Abs(l)
    ensures position >= 0 ==> Abs(l)[position] == x
    ensures position >= 0 ==> forall j :: position < j < l.size ==> Abs(l)[j] != x
  {
    ChainsOf(l);
    position := LastIndexOfFrom(l.nodes, l.tail, l.size, Order(l), Abs(l), x);
  }

  /** The loop of `LastIndexOf`, over a chain holding `s`, starting from
      its last node with the counter at `size - 1`. */
  method LastIndexOfFrom<T(==)>(nodes: seq<Node<T>>, tail: Link, size: nat, ghost o: seq<nat>, ghost s: seq<T>, x: T)
    returns (position: int)
    requires BackwardChain(nodes, o, s) && tail == LinkTo(o, |o| - 1) && size == |o|
    ensures -1 <= position < |s|
    ensures position == -1 <==> x !in s
    ensures position >= 0 ==> s[position] == x
    ensures position >= 0 ==> forall j :: position < j < |s| ==> s[j] != x
  {
    position := size - 1;
    var curr := tail;
    while curr.At?
      invariant -1 <= position < |o|
      invariant curr == LinkTo(o, position)
      invariant forall j :: position < j < |o| ==> s[j] != x
      decreases position
    {
      assert nodes[o[position]].val == s[position];
      if nodes[curr.index].val == x {
        return position;
      }
      curr := nodes[curr.index].prev;
      position := position - 1;
    }
    return -1;
  }

  // ---------------------------------------------------------------------
  // Round trips
  // ---------------------------------------------------------------------

  /** Reading back what `Add` placed: for a position up to the old size,
      `Get` at that position returns the added value without error. */
  method AddThenGet<T>(l: List<T>, position: nat, x: T) returns (r: List<T>, res: Result<T>)
    requires Valid(l)
    requires position <= l.size
    ensures Valid(r) && Abs(r) == Abs(l)[..position] + [x] + Abs(l)[position..]
    ensures res == Ok(x)
  {
    r := Add(l, position, x);
    InsertThenDelete(Abs(l), position, x);
    res := Get(r, position);
  }

  /** `Remove` undoes `Add` at the same position: it returns the added
      value and restores the abstract sequence. */
  method AddThenRemove<T>(l: List<T>, position: nat, x: T) returns (r: List<T>, res: Result<T>)
    requires Valid(l)
    requires position <= l.size
    ensures Valid(r) && r.size == l.size && Abs(r) == Abs(l)
    ensures res == Ok(x)
  {
    var added := Add(l, position, x);
    InsertThenDelete(Abs(l), position, x);
    r, res := Remove(added, position);
  }
}
