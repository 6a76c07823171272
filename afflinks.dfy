/**
 * The two passes of AffixMgr.cs that rewrite the links of one chain of the
 * affix index: process_*_in_order, which threads the `next` links through
 * a binary tree in order, and the body of process_*_order, which resets
 * nextEQ / nextNE along a sorted list for the subset-pruned search. Links
 * are entry numbers, -1 standing for null.
 */
module AffixLinks {
  import opened Base
  import opened Ordinal
  import opened AffixTree
  import opened SubsetWalk

  /**
   * process_*_in_order(ptr, nptr): the `next` links of the tree rooted at
   * ptr are set so that, from the returned head, the list visits the tree
   * in order and then carries on with the list R that starts at nptr.
   * Only the `next` links of the tree's own entries change.
   */
  method InOrderLink(eq: seq<int>, ne: seq<int>, nx: seq<int>, ptr: int, nptr: int,
                     ghost T: seq<int>, ghost R: seq<int>) returns (nx2: seq<int>, h: int)
    requires Forward(eq, ne) && |nx| == |eq| && -1 <= ptr < |eq|
    requires T == InOrder(eq, ne, ptr) && NoDup(T + R) && IsChain(nx, nptr, R)
    ensures |nx2| == |nx| && IsChain(nx2, h, T + R)
    ensures forall x :: 0 <= x < |nx| && x !in T ==> nx2[x] == nx[x]
    decreases if ptr < 0 then 0 else |eq| - ptr + 1
  {
    if ptr < 0 {
      assert T + R == R;
      return nx, nptr;
    }
    ghost var L, Rt := InOrder(eq, ne, eq[ptr]), InOrder(eq, ne, ne[ptr]);
    ghost var tail := Rt + R;
    assert T + R == L + ([ptr] + tail);
    NoDupSplit(L, [ptr] + tail);
    NoDupSplit([ptr], tail);
    var nx1, n1 := InOrderLink(eq, ne, nx, ne[ptr], nptr, Rt, R);
    ChainElements(nx1, n1, tail);
    var nx1b := nx1[ptr := n1];
    ChainFrame(nx1, nx1b, n1, tail);
    assert ([ptr] + tail)[1..] == tail;
    nx2, h := InOrderLink(eq, ne, nx1b, eq[ptr], ptr, L, [ptr] + tail);
  }

  /** The chain B read through `nx` from h: its entries are distinct and name entries with keys. */
  predicate ChainOf(keys: seq<seq<char>>, nx: seq<int>, h: int, B: seq<int>)
  {
    InRange(B, |keys|) && NoDup(B) && |nx| == |keys| && IsChain(nx, h, B)
  }

  /**
   * The inner loop of the first pass: from the entry at position i, the
   * first later entry whose key its own key is not a subset of.
   */
  method RunEndLink(keys: seq<seq<char>>, nx: seq<int>, ghost h: int, ghost B: seq<int>,
                    ghost K: seq<seq<char>>, ghost i: nat, ptr: int) returns (nptr: int)
    requires ChainOf(keys, nx, h, B) && K == KeysAt(keys, B)
    requires i < |B| && ptr == B[i] && IsChain(nx, ptr, B[i..])
    ensures nptr == LinkAt(B, RunEnd(K, i))
  {
    ChainStep(nx, ptr, B, i);
    nptr := nx[ptr];
    ghost var m := i + 1;
    while nptr != -1
      invariant i < m <= |B| && IsChain(nx, nptr, B[m..])
      invariant RunFrom(K, i, m) == RunEnd(K, i)
      decreases |B| - m
    {
      ChainStep(nx, nptr, B, m);
      var sub := IsSubset(keys[ptr], keys[nptr], 0);
      assert keys[nptr][0..] == K[m];
      if !sub {
        assert RunFrom(K, i, m) == m && LinkAt(B, m) == nptr;
        return;
      }
      nptr := nx[nptr];
      m := m + 1;
    }
    ChainEnd(nx, nptr, B, m);
  }

  /**
   * The inner loop of the cleanup pass: the last entry of the run of keys
   * extending the key at position i, or null when the run is empty.
   */
  method RunLastLink(keys: seq<seq<char>>, nx: seq<int>, ghost h: int, ghost B: seq<int>,
                     ghost K: seq<seq<char>>, ghost i: nat, ptr: int) returns (mptr: int)
    requires ChainOf(keys, nx, h, B) && K == KeysAt(keys, B)
    requires i < |B| && ptr == B[i] && IsChain(nx, ptr, B[i..])
    ensures mptr == if RunEnd(K, i) > i + 1 then B[RunEnd(K, i) - 1] else -1
  {
    ChainStep(nx, ptr, B, i);
    var nptr := nx[ptr];
    mptr := -1;
    ghost var m := i + 1;
    while nptr != -1
      invariant i < m <= |B| && IsChain(nx, nptr, B[m..])
      invariant RunFrom(K, i, m) == RunEnd(K, i)
      invariant mptr == if m > i + 1 then B[m - 1] else -1
      decreases |B| - m
    {
      ChainStep(nx, nptr, B, m);
      var sub := IsSubset(keys[ptr], keys[nptr], 0);
      assert keys[nptr][0..] == K[m];
      if !sub {
        return;
      }
      mptr := nptr;
      nptr := nx[nptr];
      m := m + 1;
    }
    ChainEnd(nx, nptr, B, m);
  }

  /** Position j's links after the first pass: nextEQ as in the design, nextNE to the end of its run. */
  ghost predicate FirstPassAt(B: seq<int>, K: seq<seq<char>>, eq: seq<int>, ne: seq<int>, j: int)
    requires |K| == |B| && InRange(B, |eq|) && |eq| == |ne|
  {
    0 <= j < |B| ==> eq[B[j]] == LinkAt(B, EQPos(K, j)) && ne[B[j]] == LinkAt(B, RunEnd(K, j))
  }

  /** Some position before `upto` (and before j) closes its run at j. */
  ghost predicate CleanedBy(K: seq<seq<char>>, j: nat, upto: nat)
    requires j < |K|
  {
    exists k0 :: 0 <= k0 < upto && k0 < j && RunEnd(K, k0) == j + 1
  }

  lemma CleanedByStep(K: seq<seq<char>>, j: nat, i: nat)
    requires j < |K| && i < |K|
    ensures CleanedBy(K, j, i + 1) <==> CleanedBy(K, j, i) || (i < j && RunEnd(K, i) == j + 1)
  {
    if CleanedBy(K, j, i + 1) && !CleanedBy(K, j, i) {
      var k0 :| 0 <= k0 < i + 1 && k0 < j && RunEnd(K, k0) == j + 1;
      assert k0 == i;
    }
  }

  lemma CleanedByAll(K: seq<seq<char>>, j: nat)
    requires j < |K|
    ensures CleanedBy(K, j, |K|) <==> Cleaned(K, j)
  {
    if Cleaned(K, j) {
      var k0 :| 0 <= k0 < j && RunEnd(K, k0) == j + 1;
      assert 0 <= k0 < |K| && k0 < j && RunEnd(K, k0) == j + 1;
    }
  }

  /** Position j's nextNE while the cleanup pass has handled the positions before `upto`. */
  ghost predicate CleanupAt(B: seq<int>, K: seq<seq<char>>, ne: seq<int>, upto: nat, j: int)
    requires |K| == |B| && InRange(B, |ne|)
  {
    0 <= j < |B| ==> ne[B[j]] == if CleanedBy(K, j, upto) then -1 else LinkAt(B, RunEnd(K, j))
  }

  /** The subset links of chain B, position by position. */
  ghost predicate LinkedAt(B: seq<int>, K: seq<seq<char>>, eq: seq<int>, ne: seq<int>, j: int)
    requires |K| == |B| && InRange(B, |eq|) && |eq| == |ne|
  {
    0 <= j < |B| ==> eq[B[j]] == LinkAt(B, EQPos(K, j)) && ne[B[j]] == LinkAt(B, NEPos(K, j))
  }

  /**
   * The first loop of process_*_order over the chain starting at h:
   * nextNE goes to the first later entry whose key does not extend this
   * one, nextEQ to the next entry when it does.
   */
  method FirstPass(keys: seq<seq<char>>, nx: seq<int>, eq: seq<int>, ne: seq<int>, h: int,
                   ghost B: seq<int>, ghost K: seq<seq<char>>) returns (eq2: seq<int>, ne2: seq<int>)
    requires ChainOf(keys, nx, h, B) && K == KeysAt(keys, B) && |eq| == |ne| == |keys|
    ensures |eq2| == |ne2| == |keys|
    ensures forall j :: FirstPassAt(B, K, eq2, ne2, j)
    ensures forall x :: 0 <= x < |keys| && x !in B ==> eq2[x] == eq[x] && ne2[x] == ne[x]
  {
    eq2, ne2 := eq, ne;
    var ptr := h;
    ghost var i := 0;
    while ptr != -1
      invariant 0 <= i <= |B| && IsChain(nx, ptr, B[i..])
      invariant |eq2| == |ne2| == |keys|
      invariant forall j :: j < i ==> FirstPassAt(B, K, eq2, ne2, j)
      invariant forall x :: 0 <= x < |keys| && x !in B ==> eq2[x] == eq[x] && ne2[x] == ne[x]
      decreases |B| - i
    {
      ChainEnd(nx, ptr, B, i);
      var nptr := RunEndLink(keys, nx, h, B, K, i, ptr);
      ChainStep(nx, ptr, B, i);
      var e := -1;
      var nxt := nx[ptr];
      if nxt != -1 {
        var sub := IsSubset(keys[ptr], keys[nxt], 0);
        assert keys[nxt][0..] == K[i + 1];
        if sub {
          e := nxt;
        }
      }
      ghost var eq0, ne0 := eq2, ne2;
      eq2, ne2 := eq2[ptr := e], ne2[ptr := nptr];
      FirstPassPut(B, K, eq0, ne0, i, eq2, ne2);
      ChainStep(nx, ptr, B, i);
      ptr := nx[ptr];
      i := i + 1;
    }
    ChainEnd(nx, ptr, B, i);
  }

  lemma FirstPassPut(B: seq<int>, K: seq<seq<char>>, eq: seq<int>, ne: seq<int>, i: nat,
                     eq2: seq<int>, ne2: seq<int>)
    requires |K| == |B| && InRange(B, |eq|) && |eq| == |ne| && NoDup(B) && i < |B|
    requires forall j :: j < i ==> FirstPassAt(B, K, eq, ne, j)
    requires eq2 == eq[B[i] := LinkAt(B, EQPos(K, i))] && ne2 == ne[B[i] := LinkAt(B, RunEnd(K, i))]
    ensures forall j :: j < i + 1 ==> FirstPassAt(B, K, eq2, ne2, j)
  {
    forall j | j < i + 1 ensures FirstPassAt(B, K, eq2, ne2, j) {
      if 0 <= j < i {
        assert B[j] != B[i];
        assert FirstPassAt(B, K, eq, ne, j);
      }
    }
  }

  /**
   * The cleanup loop of process_*_order: the last entry of each non-empty
   * run gets a null nextNE, so the search can stop there.
   */
  method Cleanup(keys: seq<seq<char>>, nx: seq<int>, ne: seq<int>, h: int,
                 ghost B: seq<int>, ghost K: seq<seq<char>>) returns (ne2: seq<int>)
    requires ChainOf(keys, nx, h, B) && K == KeysAt(keys, B) && |ne| == |keys|
    requires forall j :: CleanupAt(B, K, ne, 0, j)
    ensures |ne2| == |keys|
    ensures forall j :: CleanupAt(B, K, ne2, |B|, j)
    ensures forall x :: 0 <= x < |keys| && x !in B ==> ne2[x] == ne[x]
  {
    ne2 := ne;
    var ptr := h;
    ghost var i := 0;
    while ptr != -1
      invariant 0 <= i <= |B| && IsChain(nx, ptr, B[i..])
      invariant |ne2| == |keys|
      invariant forall j :: CleanupAt(B, K, ne2, i, j)
      invariant forall x :: 0 <= x < |keys| && x !in B ==> ne2[x] == ne[x]
      decreases |B| - i
    {
      ChainEnd(nx, ptr, B, i);
      var mptr := RunLastLink(keys, nx, h, B, K, i, ptr);
      ghost var ne0 := ne2;
      if mptr != -1 {
        ne2 := ne2[mptr := -1];
      }
      CleanupPut(B, K, ne0, i, mptr, ne2, i + 1);
      ChainStep(nx, ptr, B, i);
      ptr := nx[ptr];
      i := i + 1;
    }
    ChainEnd(nx, ptr, B, i);
  }

  lemma CleanupPut(B: seq<int>, K: seq<seq<char>>, ne: seq<int>, i: nat, mptr: int, ne2: seq<int>, i2: nat)
    requires |K| == |B| && InRange(B, |ne|) && NoDup(B) && i < |B| && i2 == i + 1
    requires forall j :: CleanupAt(B, K, ne, i, j)
    requires mptr == if RunEnd(K, i) > i + 1 then B[RunEnd(K, i) - 1] else -1
    requires ne2 == if mptr != -1 then ne[mptr := -1] else ne
    ensures forall j :: CleanupAt(B, K, ne2, i2, j)
  {
    forall j | 0 <= j < |B| ensures CleanupAt(B, K, ne2, i2, j) {
      assert CleanupAt(B, K, ne, i, j);
      CleanedByStep(K, j, i);
      if mptr != -1 && B[j] == mptr {
        assert j == RunEnd(K, i) - 1;
      }
    }
  }

  /** process_*_order on one chain: both passes, leaving the links the design comment describes. */
  method OrderChain(keys: seq<seq<char>>, nx: seq<int>, eq: seq<int>, ne: seq<int>, h: int, ghost B: seq<int>)
      returns (eq2: seq<int>, ne2: seq<int>)
    requires ChainOf(keys, nx, h, B) && |eq| == |ne| == |keys|
    ensures |eq2| == |ne2| == |keys|
    ensures forall j :: LinkedAt(B, KeysAt(keys, B), eq2, ne2, j)
    ensures forall x :: 0 <= x < |keys| && x !in B ==> eq2[x] == eq[x] && ne2[x] == ne[x]
  {
    ghost var K := KeysAt(keys, B);
    var ne1;
    eq2, ne1 := FirstPass(keys, nx, eq, ne, h, B, K);
    forall j ensures CleanupAt(B, K, ne1, 0, j) {
      assert FirstPassAt(B, K, eq2, ne1, j);
    }
    ne2 := Cleanup(keys, nx, ne1, h, B, K);
    forall j ensures LinkedAt(B, K, eq2, ne2, j) {
      assert FirstPassAt(B, K, eq2, ne1, j);
      assert CleanupAt(B, K, ne2, |B|, j);
      if 0 <= j < |B| {
        CleanedByAll(K, j);
      }
    }
  }
}
