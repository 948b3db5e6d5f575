/** Sequence reversal, standing in for Go's `slices.Reverse`. */
module Seqs {

  function Reverse<T>(s: seq<T>): (r: seq<T>)
    ensures |r| == |s|
  {
    if |s| == 0 then [] else Reverse(s[1..]) + [s[0]]
  }

  /** Reversal keeps the length and reads the sequence back to front. */
  lemma {:induction false} ReverseIndex<T>(s: seq<T>)
    ensures |Reverse(s)| == |s|
    ensures forall i :: 0 <= i < |s| ==> Reverse(s)[i] == s[|s| - 1 - i]
  {
    if |s| > 0 {
      ReverseIndex(s[1..]);
    }
  }

  lemma {:induction false} ReverseConcat<T>(a: seq<T>, b: seq<T>)
    ensures Reverse(a + b) == Reverse(b) + Reverse(a)
  {
    if |a| == 0 {
      assert a + b == b;
    } else {
      assert (a + b)[1..] == a[1..] + b;
      ReverseConcat(a[1..], b);
    }
  }

  /** Appending one element puts it at the front of the reversal. */
  lemma ReverseSnoc<T>(s: seq<T>, x: T)
    ensures Reverse(s + [x]) == [x] + Reverse(s)
  {
    ReverseConcat(s, [x]);
    assert Reverse([x]) == [x];
  }

  /** Deleting at `p` what was inserted at `p` gives the sequence back. */
  lemma InsertThenDelete<T>(s: seq<T>, p: nat, x: T)
    requires p <= |s|
    ensures (s[..p] + [x] + s[p..])[p] == x
    ensures (s[..p] + [x] + s[p..])[..p] + (s[..p] + [x] + s[p..])[p + 1..] == s
  {
    var t := s[..p] + [x] + s[p..];
    assert t[..p] == s[..p];
    assert t[p + 1..] == s[p..];
  }

  /** Inserting at the end appends. */
  lemma InsertAtEnd<T>(s: seq<T>, x: T)
    ensures s[..|s|] + [x] + s[|s|..] == s + [x]
  {
  }

  /** Inserting at the front prepends. */
  lemma InsertAtFront<T>(s: seq<T>, x: T)
    ensures s[..0] + [x] + s[0..] == [x] + s
  {
  }
}
