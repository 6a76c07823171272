/**
 * Utils.cs Heapify: after the root key of a min-heap of scores is
 * replaced, the new root is sifted down; keys and values move in pairs.
 * The heap is laid out in the array with the children of node i at
 * 2i+1 and 2i+2.
 */
module Heap {

  function Parent(k: int): int
  {
    (k - 1) / 2
  }

  /** The nodes whose parent is i are 2i+1 and 2i+2. */
  lemma ChildrenOf(i: nat, d: int)
    ensures (1 <= d && Parent(d) == i) <==> (d == 2 * i + 1 || d == 2 * i + 2)
  {
    if 1 <= d && Parent(d) == i {
      assert (d - 1) / 2 * 2 <= d - 1 < (d - 1) / 2 * 2 + 2;
    }
  }

  /** Every edge of the heap holds, except the edges leaving node hole. */
  ghost predicate HeapExcept(s: seq<int>, hole: int)
  {
    forall k :: 1 <= k < |s| && Parent(k) != hole ==> s[Parent(k)] <= s[k]
  }

  /** Every node is at least its parent: the root holds the smallest key. */
  ghost predicate MinHeap(s: seq<int>)
  {
    forall k :: 1 <= k < |s| ==> s[Parent(k)] <= s[k]
  }

  /** c is a child of i holding the smallest key among the children of i. */
  ghost predicate MinChild(s: seq<int>, i: int, c: int)
  {
    1 <= c < |s| && Parent(c) == i && forall d :: 1 <= d < |s| && Parent(d) == i ==> s[c] <= s[d]
  }

  /**
   * The sift-down state with the hole at i, where key is to go: the heap
   * holds except below the hole, and the parent of the hole is below key
   * and not above the hole's children.
   */
  ghost predicate SiftInv(s: seq<int>, i: int, key: int)
  {
    0 <= i < |s| && HeapExcept(s, i) &&
    (i > 0 ==> s[Parent(i)] < key && forall d :: 1 <= d < |s| && Parent(d) == i ==> s[Parent(i)] <= s[d])
  }

  /** Key and value arrays as one sequence of pairs. */
  function Zip<V>(ks: seq<int>, vs: seq<V>): (z: seq<(int, V)>)
    requires |ks| == |vs|
    ensures |z| == |ks| && forall k :: 0 <= k < |ks| ==> z[k] == (ks[k], vs[k])
  {
    seq(|ks|, k requires 0 <= k < |ks| => (ks[k], vs[k]))
  }

  /** Moving the smallest child up into the hole moves the hole down to that child. */
  lemma MoveUp(s: seq<int>, i: nat, c: nat, key: int)
    requires SiftInv(s, i, key) && MinChild(s, i, c) && s[c] < key
    ensures SiftInv(s[i := s[c]], c, key)
  {
    var t := s[i := s[c]];
    assert Parent(c) == i;
    forall k | 1 <= k < |t| && Parent(k) != c
      ensures t[Parent(k)] <= t[k]
    {
      if k == i {
        assert t[Parent(k)] == s[Parent(i)];
      } else if Parent(k) == i {
        assert s[c] <= s[k];
      } else {
        assert s[Parent(k)] <= s[k];
      }
    }
    forall d | 1 <= d < |t| && Parent(d) == c
      ensures t[Parent(c)] <= t[d]
    {
      ChildrenOf(c, d);
      assert Parent(d) != i;
    }
  }

  /** Putting key into the hole when no child is below it completes the heap. */
  lemma Place(s: seq<int>, i: nat, key: int)
    requires SiftInv(s, i, key)
    requires forall d :: 1 <= d < |s| && Parent(d) == i ==> key <= s[d]
    ensures MinHeap(s[i := key])
  {
    var t := s[i := key];
    forall k | 1 <= k < |t|
      ensures t[Parent(k)] <= t[k]
    {
      if k == i {
      } else if Parent(k) != i {
        assert s[Parent(k)] <= s[k];
      }
    }
  }

  /** Moving the hole from i to c exchanges the pairs at i and c of the filled sequence. */
  lemma MoveKeepsPairs<V>(ks: seq<int>, vs: seq<V>, i: nat, c: nat, key: int, value: V)
    requires |ks| == |vs| && i < c < |ks|
    ensures multiset(Zip(ks[i := ks[c]][c := key], vs[i := vs[c]][c := value])) ==
            multiset(Zip(ks[i := key], vs[i := value]))
  {
    var a := Zip(ks[i := key], vs[i := value]);
    var b := Zip(ks[i := ks[c]][c := key], vs[i := vs[c]][c := value]);
    assert b == a[i := a[c]][c := a[i]];
    var m := a[i := a[c]];
    assert multiset(m) == multiset(a) - multiset{a[i]} + multiset{a[c]};
    assert multiset(m[c := a[i]]) == multiset(m) - multiset{m[c]} + multiset{a[i]};
  }

  /** Inside the loop of Heapify: the sift-down state, with child the smallest child of the hole and below key. */
  ghost predicate Sifting<V>(ks: seq<int>, vs: seq<V>, i: int, child: int, key: int, value: V, k0: seq<int>, v0: seq<V>)
  {
    |ks| == |vs| == |k0| == |v0| && SiftInv(ks, i, key) && MinChild(ks, i, child) && ks[child] < key &&
    multiset(Zip(ks[i := key], vs[i := value])) == multiset(Zip(k0, v0))
  }

  /** After the loop of Heapify: no child of the hole at i is below key. */
  ghost predicate Settled<V>(ks: seq<int>, vs: seq<V>, i: int, key: int, value: V, k0: seq<int>, v0: seq<V>)
  {
    |ks| == |vs| == |k0| == |v0| && SiftInv(ks, i, key) &&
    (forall d :: 1 <= d < |ks| && Parent(d) == i ==> key <= ks[d]) &&
    multiset(Zip(ks[i := key], vs[i := value])) == multiset(Zip(k0, v0))
  }

  /** The nodes whose parent is i, when the first candidate child is c == 2i+1. */
  lemma ChildrenAre(i: nat, c: int, n: int)
    requires c == 2 * i + 1
    ensures forall d :: 1 <= d < n && Parent(d) == i ==> d == c || d == c + 1
    ensures Parent(c) == i && Parent(c + 1) == i
  {
    ChildrenOf(i, c);
    ChildrenOf(i, c + 1);
    forall d | 1 <= d < n && Parent(d) == i
      ensures d == c || d == c + 1
    {
      ChildrenOf(i, d);
    }
  }

  /** One round of the do-while loop of Heapify: move the child up, then pick the next child. */
  method SiftStep<V>(keys: array<int>, values: array<V>, i: int, child: int, key: int, ghost value: V,
                     ghost k0: seq<int>, ghost v0: seq<V>)
    returns (i': int, child': int, more: bool)
    requires keys as object != values as object
    requires Sifting(keys[..], values[..], i, child, key, value, k0, v0)
    modifies keys, values
    ensures i < i' < keys.Length
    ensures more ==> Sifting(keys[..], values[..], i', child', key, value, k0, v0)
    ensures !more ==> Settled(keys[..], values[..], i', key, value, k0, v0)
  {
    ghost var ks, vs := keys[..], values[..];
    MoveUp(ks, i, child, key);
    MoveKeepsPairs(ks, vs, i, child, key, value);
    keys[i] := keys[child];
    values[i] := values[child];
    ghost var t, u := keys[..], values[..];
    assert t == ks[i := ks[child]] && u == vs[i := vs[child]];
    assert SiftInv(t, child, key);
    assert multiset(Zip(t[child := key], u[child := value])) == multiset(Zip(k0, v0));
    i' := child;
    child' := 2 * i' + 1;
    ChildrenAre(i', child', keys.Length);
    if child' >= keys.Length {
      assert Settled(t, u, i', key, value, k0, v0);
      return i', child', false;
    }
    if child' + 1 < keys.Length && keys[child' + 1] < keys[child'] {
      child' := child' + 1;
    }
    assert MinChild(t, i', child');
    more := keys[child'] < key;
    if !more {
      assert Settled(t, u, i', key, value, k0, v0);
    }
  }

  /**
   * Heapify(keys, values): if the heap holds below the root, it holds
   * everywhere afterwards, and the (key, value) pairs are the same pairs.
   */
  method Heapify<V>(keys: array<int>, values: array<V>)
    requires keys.Length == values.Length && keys.Length >= 3
    requires keys as object != values as object
    requires HeapExcept(keys[..], 0)
    modifies keys, values
    ensures MinHeap(keys[..])
    ensures multiset(Zip(keys[..], values[..])) == multiset(Zip(old(keys[..]), old(values[..])))
  {
    ghost var k0, v0 := keys[..], values[..];
    var key := keys[0];
    var child := if keys[2] < keys[1] then 2 else 1;
    ChildrenAre(0, 1, keys.Length);
    if keys[child] >= key {
      Place(k0, 0, key);
      assert k0[0 := key] == k0;
      return;
    }
    var i := 0;
    var value := values[0];
    assert k0[0 := key] == k0 && v0[0 := value] == v0;
    var more := true;
    while more
      invariant more ==> Sifting(keys[..], values[..], i, child, key, value, k0, v0)
      invariant !more ==> Settled(keys[..], values[..], i, key, value, k0, v0)
      invariant 0 <= i < keys.Length
      decreases keys.Length - i, more
    {
      i, child, more := SiftStep(keys, values, i, child, key, value, k0, v0);
    }
    Place(keys[..], i, key);
    keys[i] := key;
    values[i] := value;
  }
}
