/**
 * Value-level theory of the affix index links (AffixMgr.cs build_pfxtree,
 * build_sfxtree, process_*_in_order): entries are numbered in the order
 * they were added, and each link is an entry number or -1 for null.
 */
module AffixTree {
  import opened Base
  import opened Ordinal

  /** Every tree link is null or points to a later entry (a child is added after its parent). */
  predicate Forward(eq: seq<int>, ne: seq<int>)
  {
    |eq| == |ne| &&
    forall i :: 0 <= i < |eq| ==> (eq[i] == -1 || i < eq[i] < |eq|) && (ne[i] == -1 || i < ne[i] < |ne|)
  }

  /**
   * The in-order list of the tree rooted at r as process_*_in_order
   * builds it: the nextEQ subtree (keys <= the node), the node, then the
   * nextNE subtree (keys > the node).
   */
  function InOrder(eq: seq<int>, ne: seq<int>, r: int): (s: seq<int>)
    requires Forward(eq, ne) && -1 <= r < |eq|
    decreases if r < 0 then 0 else |eq| - r + 1
  {
    if r < 0 then [] else InOrder(eq, ne, eq[r]) + [r] + InOrder(eq, ne, ne[r])
  }

  predicate NoDup(s: seq<int>)
  {
    forall i, j :: 0 <= i < j < |s| ==> s[i] != s[j]
  }

  lemma NoDupSplit(a: seq<int>, b: seq<int>)
    requires NoDup(a + b)
    ensures NoDup(a) && NoDup(b) && forall x :: x in a ==> x !in b
  {
    forall i, j | 0 <= i < |a| && 0 <= j < |b| ensures a[i] != b[j] {
      assert (a + b)[i] == a[i] && (a + b)[|a| + j] == b[j];
    }
    forall i, j | 0 <= i < j < |b| ensures b[i] != b[j] {
      assert (a + b)[|a| + i] == b[i] && (a + b)[|a| + j] == b[j];
    }
    forall i, j | 0 <= i < j < |a| ensures a[i] != a[j] {
      assert (a + b)[i] == a[i] && (a + b)[j] == a[j];
    }
  }

  /** Every element of B names an entry. */
  predicate InRange(B: seq<int>, n: int)
  {
    forall i :: 0 <= i < |B| ==> 0 <= B[i] < n
  }

  /** The keys of the entries in B, in the same order. */
  function KeysAt(keys: seq<seq<char>>, B: seq<int>): (K: seq<seq<char>>)
    requires InRange(B, |keys|)
    ensures |K| == |B| && forall i :: 0 <= i < |B| ==> K[i] == keys[B[i]]
  {
    seq(|B|, i requires 0 <= i < |B| => keys[B[i]])
  }

  /** Where a new key goes in an ordered list: before the first key it is ordinally <= to. */
  function InsertPos(keys: seq<seq<char>>, B: seq<int>, k: seq<char>): (p: nat)
    requires InRange(B, |keys|)
    ensures p <= |B|
    ensures forall j :: 0 <= j < p ==> !LexLe(k, keys[B[j]])
    ensures p < |B| ==> LexLe(k, keys[B[p]])
    decreases |B|
  {
    if B == [] then 0
    else if LexLe(k, keys[B[0]]) then 0
    else 1 + InsertPos(keys, B[1..], k)
  }

  lemma {:induction false} InsertPosIs(keys: seq<seq<char>>, B: seq<int>, k: seq<char>, p: nat)
    requires InRange(B, |keys|)
    requires p <= |B| && forall j :: 0 <= j < p ==> !LexLe(k, keys[B[j]])
    requires p < |B| ==> LexLe(k, keys[B[p]])
    ensures InsertPos(keys, B, k) == p
    decreases |B|
  {
    if B != [] && p > 0 {
      InsertPosIs(keys, B[1..], k, p - 1);
    }
  }

  /** Entry x has a key starting with c. */
  predicate StartsWith(keys: seq<seq<char>>, x: int, c: char)
  {
    0 <= x < |keys| && keys[x] != [] && keys[x][0] == c
  }

  /**
   * The chain of the entries whose key starts with c, as the binary tree
   * insertion arranges them: each new key goes before the first key it is
   * ordinally <= to, so equal keys end up newest first.
   */
  function Bucket(keys: seq<seq<char>>, c: char): (B: seq<int>)
    ensures forall x :: x in B <==> StartsWith(keys, x, c)
    ensures InRange(B, |keys|)
    decreases |keys|
  {
    if |keys| == 0 then []
    else
      var n := |keys| - 1;
      var B0 := Bucket(keys[..n], c);
      assert forall x :: 0 <= x < n ==> keys[..n][x] == keys[x];
      assert forall x :: StartsWith(keys[..n], x, c) <==> 0 <= x < n && StartsWith(keys, x, c);
      if keys[n] != [] && keys[n][0] == c then
        var p := InsertPos(keys, B0, keys[n]);
        B0[..p] + [n] + B0[p..]
      else B0
  }

  /** B's entries in nondecreasing ordinal order of their keys. */
  predicate OrderedBy(keys: seq<seq<char>>, B: seq<int>)
    requires InRange(B, |keys|)
  {
    forall i, j :: 0 <= i < j < |B| ==> LexLe(keys[B[i]], keys[B[j]])
  }

  lemma InsertAtFacts(s: seq<int>, p: nat, v: int)
    requires p <= |s|
    ensures var t := s[..p] + [v] + s[p..];
      |t| == |s| + 1 && t[p] == v &&
      (forall i :: 0 <= i < p ==> t[i] == s[i]) && (forall i :: p < i < |t| ==> t[i] == s[i - 1])
  {
  }

  lemma InsertKeepsOrder(keys: seq<seq<char>>, B0: seq<int>, n: int)
    requires 0 <= n < |keys| && InRange(B0, n) && NoDup(B0) && OrderedBy(keys, B0)
    ensures var B := B0[..InsertPos(keys, B0, keys[n])] + [n] + B0[InsertPos(keys, B0, keys[n])..];
      InRange(B, |keys|) && NoDup(B) && OrderedBy(keys, B)
  {
    var k := keys[n];
    var p := InsertPos(keys, B0, k);
    var B := B0[..p] + [n] + B0[p..];
    InsertAtFacts(B0, p, n);
    forall i, j | 0 <= i < j < |B| ensures B[i] != B[j] && LexLe(keys[B[i]], keys[B[j]]) {
      if j == p {
        LexLeTotal(k, keys[B[i]]);
      } else if i == p && p < j - 1 {
        LexLeTrans(k, keys[B0[p]], keys[B0[j - 1]]);
      }
    }
  }

  /** The chain is in nondecreasing ordinal order and names each entry once. */
  lemma {:induction false} BucketSorted(keys: seq<seq<char>>, c: char)
    ensures NoDup(Bucket(keys, c)) && OrderedBy(keys, Bucket(keys, c))
    decreases |keys|
  {
    if |keys| > 0 {
      var n := |keys| - 1;
      var B0 := Bucket(keys[..n], c);
      BucketSorted(keys[..n], c);
      OrderedPrefix(keys, n, B0);
      if keys[n] != [] && keys[n][0] == c {
        assert Bucket(keys, c) == B0[..InsertPos(keys, B0, keys[n])] + [n] + B0[InsertPos(keys, B0, keys[n])..];
        hide Bucket;
        InsertKeepsOrder(keys, B0, n);
      } else {
        assert Bucket(keys, c) == B0;
      }
    }
  }

  /** An order on the first n keys is an order on all of them. */
  lemma OrderedPrefix(keys: seq<seq<char>>, n: nat, B0: seq<int>)
    requires n <= |keys| && InRange(B0, n) && OrderedBy(keys[..n], B0)
    ensures InRange(B0, |keys|) && OrderedBy(keys, B0)
  {
    assert forall i :: 0 <= i < |B0| ==> keys[..n][B0[i]] == keys[B0[i]];
  }

  /** Entries with another first character, or an empty key, do not change a chain. */
  lemma BucketAppendOther(keys: seq<seq<char>>, k: seq<char>, c: char)
    requires k == [] || k[0] != c
    ensures Bucket(keys + [k], c) == Bucket(keys, c)
  {
    assert (keys + [k])[..|keys|] == keys;
  }

  lemma BucketAppendSame(keys: seq<seq<char>>, k: seq<char>)
    requires k != []
    ensures Bucket(keys + [k], k[0]) ==
      var B0 := Bucket(keys, k[0]);
      var p := InsertPos(keys + [k], B0, k);
      B0[..p] + [|keys|] + B0[p..]
  {
    assert (keys + [k])[..|keys|] == keys;
  }

  /** Every x in s replaced by itself and y: y before x when `before`, after it otherwise. */
  function Splice(s: seq<int>, x: int, y: int, before: bool): (r: seq<int>)
    decreases |s|
  {
    if s == [] then []
    else (if s[0] == x then (if before then [y, x] else [x, y]) else [s[0]]) + Splice(s[1..], x, y, before)
  }

  lemma {:induction false} SpliceAppend(a: seq<int>, b: seq<int>, x: int, y: int, before: bool)
    ensures Splice(a + b, x, y, before) == Splice(a, x, y, before) + Splice(b, x, y, before)
    decreases |a|
  {
    if a != [] {
      var h := if a[0] == x then (if before then [y, x] else [x, y]) else [a[0]];
      assert (a + b)[0] == a[0] && (a + b)[1..] == a[1..] + b;
      assert Splice(a + b, x, y, before) == h + Splice(a[1..] + b, x, y, before);
      assert Splice(a, x, y, before) == h + Splice(a[1..], x, y, before);
      SpliceAppend(a[1..], b, x, y, before);
    } else {
      assert a + b == b;
    }
  }

  lemma {:induction false} SpliceAbsent(s: seq<int>, x: int, y: int, before: bool)
    requires x !in s
    ensures Splice(s, x, y, before) == s
    decreases |s|
  {
    if s != [] {
      SpliceAbsent(s[1..], x, y, before);
      assert s == [s[0]] + s[1..];
    }
  }

  lemma SpliceAt(s: seq<int>, i: nat, y: int, before: bool)
    requires NoDup(s) && i < |s|
    ensures Splice(s, s[i], y, before) == s[..i] + (if before then [y, s[i]] else [s[i], y]) + s[i + 1..]
  {
    var x := s[i];
    assert s == s[..i] + [x] + s[i + 1..];
    NoDupSplit(s[..i] + [x], s[i + 1..]);
    NoDupSplit(s[..i], [x]);
    SpliceAppend(s[..i] + [x], s[i + 1..], x, y, before);
    SpliceAppend(s[..i], [x], x, y, before);
    SpliceAbsent(s[..i], x, y, before);
    SpliceAbsent(s[i + 1..], x, y, before);
    assert Splice([x], x, y, before) == (if before then [y, x] else [x, y]) + Splice([], x, y, before);
  }

  /** Extending the arrays with a leaf leaves every existing tree as it was. */
  lemma {:induction false} InOrderExtend(eq: seq<int>, ne: seq<int>, eq2: seq<int>, ne2: seq<int>, r: int)
    requires Forward(eq, ne) && Forward(eq2, ne2) && |eq| <= |eq2|
    requires eq == eq2[..|eq|] && ne == ne2[..|ne|]
    requires -1 <= r < |eq|
    ensures InOrder(eq2, ne2, r) == InOrder(eq, ne, r)
    decreases if r < 0 then 0 else |eq| - r + 1
  {
    if r >= 0 {
      assert eq2[r] == eq[r] && ne2[r] == ne[r];
      InOrderExtend(eq, ne, eq2, ne2, eq[r]);
      InOrderExtend(eq, ne, eq2, ne2, ne[r]);
    }
  }

  /**
   * Hanging the leaf y under x, on the nextEQ side (`before`) or the
   * nextNE side, splices y next to x in every in-order list.
   */
  lemma {:induction false} InOrderAttach(eq: seq<int>, ne: seq<int>, eq2: seq<int>, ne2: seq<int>,
                                         x: int, y: int, before: bool, r: int)
    requires Forward(eq, ne) && Forward(eq2, ne2) && |eq2| == |eq|
    requires 0 <= x < y < |eq| && eq[y] == -1 && ne[y] == -1
    requires before ==> eq[x] == -1 && eq2 == eq[x := y] && ne2 == ne
    requires !before ==> ne[x] == -1 && ne2 == ne[x := y] && eq2 == eq
    requires -1 <= r < |eq|
    ensures InOrder(eq2, ne2, r) == Splice(InOrder(eq, ne, r), x, y, before)
    decreases if r < 0 then 0 else |eq| - r + 1, 1
  {
    if r < 0 {
    } else if r == y {
      assert InOrder(eq, ne, y) == [y];
      assert InOrder(eq2, ne2, y) == [y];
      SpliceSingle(y, x, y, before);
    } else {
      InOrderAttachNode(eq, ne, eq2, ne2, x, y, before, r);
    }
  }

  /** The attaching at an inner node r other than the new leaf: both subtrees, and x itself. */
  lemma {:induction false} InOrderAttachNode(eq: seq<int>, ne: seq<int>, eq2: seq<int>, ne2: seq<int>,
                                             x: int, y: int, before: bool, r: int)
    requires Forward(eq, ne) && Forward(eq2, ne2) && |eq2| == |eq|
    requires 0 <= x < y < |eq| && eq[y] == -1 && ne[y] == -1
    requires before ==> eq[x] == -1 && eq2 == eq[x := y] && ne2 == ne
    requires !before ==> ne[x] == -1 && ne2 == ne[x := y] && eq2 == eq
    requires 0 <= r < |eq| && r != y
    ensures InOrder(eq2, ne2, r) == Splice(InOrder(eq, ne, r), x, y, before)
    decreases |eq| - r + 1, 0
  {
    var L, R := InOrder(eq, ne, eq[r]), InOrder(eq, ne, ne[r]);
    var L2, R2 := InOrder(eq2, ne2, eq2[r]), InOrder(eq2, ne2, ne2[r]);
    assert InOrder(eq, ne, r) == L + [r] + R;
    assert InOrder(eq2, ne2, r) == L2 + [r] + R2;
    SpliceNode(L, r, R, x, y, before);
    if r != x {
      assert eq2[r] == eq[r] && ne2[r] == ne[r];
      InOrderAttach(eq, ne, eq2, ne2, x, y, before, eq[r]);
      InOrderAttach(eq, ne, eq2, ne2, x, y, before, ne[r]);
    } else {
      InOrderAttach(eq, ne, eq2, ne2, x, y, before, eq2[r]);
      InOrderAttach(eq, ne, eq2, ne2, x, y, before, ne2[r]);
      AttachedAtX(eq, ne, eq2, ne2, x, y, before);
    }
  }

  /** At x itself, the new leaf y becomes x's empty subtree on its side. */
  lemma AttachedAtX(eq: seq<int>, ne: seq<int>, eq2: seq<int>, ne2: seq<int>, x: int, y: int, before: bool)
    requires Forward(eq, ne) && Forward(eq2, ne2) && |eq2| == |eq|
    requires 0 <= x < y < |eq| && eq[y] == -1 && ne[y] == -1
    requires before ==> eq[x] == -1 && eq2 == eq[x := y] && ne2 == ne
    requires !before ==> ne[x] == -1 && ne2 == ne[x := y] && eq2 == eq
    requires InOrder(eq2, ne2, eq2[x]) == Splice(InOrder(eq, ne, eq2[x]), x, y, before)
    requires InOrder(eq2, ne2, ne2[x]) == Splice(InOrder(eq, ne, ne2[x]), x, y, before)
    ensures InOrder(eq2, ne2, eq2[x]) + [x] + InOrder(eq2, ne2, ne2[x]) ==
      Splice(InOrder(eq, ne, eq[x]), x, y, before) + (if before then [y, x] else [x, y]) + Splice(InOrder(eq, ne, ne[x]), x, y, before)
  {
    SpliceNil(x, y, before);
    SpliceSingle(y, x, y, before);
    LeafOrder(eq, ne, y);
    LeafOrder(eq, ne, -1);
    assert |ne| == |eq| && |ne2| == |eq2|;
    hide *;
    if before {
      assert eq2[x] == y && ne2[x] == ne[x] && eq[x] == -1;
      assert InOrder(eq2, ne2, eq2[x]) == [y];
    } else {
      assert ne2[x] == y && eq2[x] == eq[x] && ne[x] == -1;
      assert InOrder(eq2, ne2, ne2[x]) == [y];
    }
  }

  /** The in-order list of no tree is empty, that of a leaf is the leaf alone. */
  lemma LeafOrder(eq: seq<int>, ne: seq<int>, r: int)
    requires Forward(eq, ne) && -1 <= r < |eq| && (r >= 0 ==> eq[r] == -1 && ne[r] == -1)
    ensures InOrder(eq, ne, r) == if r < 0 then [] else [r]
  {
    if r >= 0 {
      assert InOrder(eq, ne, r) == InOrder(eq, ne, -1) + [r] + InOrder(eq, ne, -1);
    }
  }

  lemma SpliceNil(x: int, y: int, before: bool)
    ensures Splice([], x, y, before) == []
  {
  }

  lemma SpliceNode(L: seq<int>, r: int, R: seq<int>, x: int, y: int, before: bool)
    ensures Splice(L + [r] + R, x, y, before) ==
      Splice(L, x, y, before) + (if r == x then (if before then [y, x] else [x, y]) else [r]) + Splice(R, x, y, before)
  {
    SpliceAppend(L + [r], R, x, y, before);
    SpliceAppend(L, [r], x, y, before);
    SpliceSingle(r, x, y, before);
  }

  lemma SpliceSingle(v: int, x: int, y: int, before: bool)
    ensures Splice([v], x, y, before) == if v == x then (if before then [y, x] else [x, y]) else [v]
  {
    assert Splice([v], x, y, before) == (if v == x then (if before then [y, x] else [x, y]) else [v]) + Splice([], x, y, before);
  }

  /** Following `nx` from h visits exactly L and then reaches null. */
  predicate IsChain(nx: seq<int>, h: int, L: seq<int>)
    decreases |L|
  {
    if L == [] then h == -1 else h == L[0] && 0 <= h < |nx| && IsChain(nx, nx[h], L[1..])
  }

  lemma {:induction false} ChainFrame(nx: seq<int>, nx2: seq<int>, h: int, L: seq<int>)
    requires IsChain(nx, h, L) && |nx| <= |nx2|
    requires forall x :: x in L ==> 0 <= x < |nx| && nx2[x] == nx[x]
    ensures IsChain(nx2, h, L)
    decreases |L|
  {
    if L != [] {
      assert forall x :: x in L[1..] ==> x in L;
      ChainFrame(nx, nx2, nx[h], L[1..]);
    }
  }

  lemma {:induction false} ChainElements(nx: seq<int>, h: int, L: seq<int>)
    requires IsChain(nx, h, L)
    ensures forall x :: x in L ==> 0 <= x < |nx|
    decreases |L|
  {
    if L != [] {
      ChainElements(nx, nx[h], L[1..]);
      assert forall x :: x in L ==> x == L[0] || x in L[1..];
    }
  }

  predicate Picked<T>(s: seq<T>, p: T -> bool, x: int)
  {
    0 <= x < |s| && p(s[x])
  }

  /** The positions of s where p holds, newest first: the lists built by pushing on a head. */
  function NewestFirst<T>(s: seq<T>, p: T -> bool): (r: seq<int>)
    ensures forall x :: x in r <==> Picked(s, p, x)
    ensures forall i, j :: 0 <= i < j < |r| ==> r[i] > r[j]
    decreases |s|
  {
    if s == [] then []
    else
      var n := |s| - 1;
      var R := NewestFirst(s[..n], p);
      PickedBefore(s, p, n, R);
      (if p(s[n]) then [n] else []) + R
  }

  /** The positions picked in the first n elements are those picked in s below n. */
  lemma PickedBefore<T>(s: seq<T>, p: T -> bool, n: nat, R: seq<int>)
    requires n <= |s| && forall x :: x in R <==> Picked(s[..n], p, x)
    ensures forall x :: x in R <==> 0 <= x < n && Picked(s, p, x)
    ensures forall j :: 0 <= j < |R| ==> R[j] < n
  {
    assert forall x :: 0 <= x < n ==> s[..n][x] == s[x];
    assert forall j :: 0 <= j < |R| ==> R[j] in R;
  }

  lemma NewestFirstAppend<T>(s: seq<T>, x: T, p: T -> bool)
    ensures NewestFirst(s + [x], p) == (if p(x) then [|s|] else []) + NewestFirst(s, p)
  {
    assert (s + [x])[..|s|] == s;
  }

  /** The null node reached through the link of the last node, or the node at position p. */
  function LinkAt(B: seq<int>, p: nat): int
    requires p <= |B|
  {
    if p < |B| then B[p] else -1
  }

  /** Walking a chain one step: the rest of the list from position i+1. */
  lemma ChainStep(nx: seq<int>, h: int, B: seq<int>, i: nat)
    requires i < |B| && IsChain(nx, h, B[i..])
    ensures h == B[i] && 0 <= h < |nx| && IsChain(nx, nx[h], B[i + 1..])
    ensures nx[h] == LinkAt(B, i + 1)
  {
    assert B[i..][0] == B[i] && B[i..][1..] == B[i + 1..];
    if i + 1 < |B| {
      assert B[i + 1..][0] == B[i + 1];
    } else {
      assert B[i + 1..] == [];
    }
  }

  lemma ChainEnd(nx: seq<int>, h: int, B: seq<int>, i: nat)
    requires i <= |B| && IsChain(nx, h, B[i..])
    ensures h == LinkAt(B, i)
    ensures h == -1 <==> i == |B|
  {
    if i < |B| {
      assert B[i..][0] == B[i];
    } else {
      assert B[i..] == [];
    }
  }
}
