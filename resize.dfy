/**
 * Rehashing (HashMgr.cs Resize and walk_hashtable) on the values of the
 * table: the concatenation of the bucket chains, in bucket order, is the
 * order walk_hashtable visits entries and the order Resize pushes them onto
 * its stack; each new chain is the subsequence of that walk falling into
 * its new bucket.
 */
module HashResize {
  import opened Base
  import opened HashLists
  import opened HashSpec

  /** The elements of s, in order, that name entries whose hash code selects bucket b of n. */
  function Select(es: seq<HEntry>, n: int, b: int, s: seq<int>): (r: seq<int>)
    requires n > 0
  {
    if s == [] then []
    else (if 0 <= s[0] < |es| && Bucket(es[s[0]].hash, n) == b then [s[0]] else []) + Select(es, n, b, s[1..])
  }

  /** Select keeps exactly the elements of s in bucket b. */
  lemma {:induction false} SelectMembers(es: seq<HEntry>, n: int, b: int, s: seq<int>)
    requires n > 0
    ensures var r := Select(es, n, b, s);
      (forall k :: 0 <= k < |r| ==> 0 <= r[k] < |es| && Bucket(es[r[k]].hash, n) == b && r[k] in s) &&
      (forall x :: x in s && 0 <= x < |es| && Bucket(es[x].hash, n) == b ==> x in r)
  {
    if s != [] {
      SelectMembers(es, n, b, s[1..]);
      var r := Select(es, n, b, s);
      forall x | x in s && 0 <= x < |es| && Bucket(es[x].hash, n) == b ensures x in r {
        if x != s[0] {
          assert x in s[1..];
        }
      }
    }
  }

  /** A list is in homonym order when its tail is and its head precedes its later homonyms. */
  lemma OrderedCons(es: seq<HEntry>, x: int, t: seq<int>)
    requires OrderedSeq(es, t)
    requires forall j :: 0 <= j < |t| && 0 <= x < |es| && 0 <= t[j] < |es| && es[x].word == es[t[j]].word ==> x < t[j]
    ensures OrderedSeq(es, [x] + t)
  {
    var r := [x] + t;
    forall k1, k2 | 0 <= k1 < k2 < |r| && 0 <= r[k1] < |es| && 0 <= r[k2] < |es| && es[r[k1]].word == es[r[k2]].word
      ensures r[k1] < r[k2]
    {
      assert r[k2] == t[k2 - 1];
      if k1 > 0 {
        assert r[k1] == t[k1 - 1];
      }
    }
  }

  /** The tail of a list in homonym order is in homonym order, and its head precedes its later homonyms. */
  lemma OrderedTail(es: seq<HEntry>, s: seq<int>)
    requires OrderedSeq(es, s) && s != []
    ensures OrderedSeq(es, s[1..])
    ensures forall j :: 0 <= j < |s| - 1 && 0 <= s[0] < |es| && 0 <= s[1..][j] < |es| && es[s[0]].word == es[s[1..][j]].word ==>
      s[0] < s[1..][j]
  {
    forall j | 0 <= j < |s| - 1 ensures s[1..][j] == s[j + 1] {
    }
  }

  /** Select keeps the order of same-word entries. */
  lemma {:induction false} SelectOrdered(es: seq<HEntry>, n: int, b: int, s: seq<int>)
    requires n > 0 && OrderedSeq(es, s)
    ensures OrderedSeq(es, Select(es, n, b, s))
  {
    if s != [] {
      OrderedTail(es, s);
      SelectOrdered(es, n, b, s[1..]);
      var t := Select(es, n, b, s[1..]);
      if 0 <= s[0] < |es| && Bucket(es[s[0]].hash, n) == b {
        SelectMembers(es, n, b, s[1..]);
        forall j | 0 <= j < |t| && 0 <= s[0] < |es| && 0 <= t[j] < |es| && es[s[0]].word == es[t[j]].word
          ensures s[0] < t[j]
        {
          var i :| 0 <= i < |s[1..]| && s[1..][i] == t[j];
        }
        OrderedCons(es, s[0], t);
      } else {
        assert Select(es, n, b, s) == t;
      }
    }
  }

  /** Entries with one word sit in one list of L. */
  ghost predicate Segregated(es: seq<HEntry>, L: seq<seq<int>>)
  {
    forall a, i, b, j ::
      0 <= a < |L| && 0 <= i < |L[a]| && 0 <= b < |L| && 0 <= j < |L[b]| &&
      0 <= L[a][i] < |es| && 0 <= L[b][j] < |es| && es[L[a][i]].word == es[L[b][j]].word
      ==> a == b
  }

  lemma SegregatedTail(es: seq<HEntry>, L: seq<seq<int>>)
    requires Segregated(es, L) && L != []
    ensures Segregated(es, L[1..])
  {
    forall a, i, b, j | 0 <= a < |L[1..]| && 0 <= i < |L[1..][a]| && 0 <= b < |L[1..]| && 0 <= j < |L[1..][b]| &&
      0 <= L[1..][a][i] < |es| && 0 <= L[1..][b][j] < |es| && es[L[1..][a][i]].word == es[L[1..][b][j]].word
      ensures a == b
    {
      assert L[1..][a] == L[a + 1] && L[1..][b] == L[b + 1];
    }
  }

  /** No word of the first list occurs in the concatenation of the others. */
  lemma SegregatedFront(es: seq<HEntry>, L: seq<seq<int>>, k1: int, x: int)
    requires Segregated(es, L) && L != [] && 0 <= k1 < |L[0]| && x in Concat(L[1..])
    requires 0 <= L[0][k1] < |es| && 0 <= x < |es|
    ensures es[L[0][k1]].word != es[x].word
  {
    ConcatMember(L[1..], x);
    var a, i :| 0 <= a < |L[1..]| && 0 <= i < |L[1..][a]| && L[1..][a][i] == x;
    assert L[a + 1][i] == x;
  }

  /** Lists each in homonym order, with every word in one list, concatenate into homonym order. */
  lemma {:induction false} OrderedConcat(es: seq<HEntry>, L: seq<seq<int>>)
    requires forall a :: 0 <= a < |L| ==> OrderedSeq(es, L[a])
    requires Segregated(es, L)
    ensures OrderedSeq(es, Concat(L))
  {
    if L != [] {
      SegregatedTail(es, L);
      forall a | 0 <= a < |L[1..]| ensures OrderedSeq(es, L[1..][a]) {
        assert L[1..][a] == L[a + 1];
      }
      OrderedConcat(es, L[1..]);
      var h := L[0];
      var t := Concat(L[1..]);
      var c := Concat(L);
      assert c == h + t;
      forall k1, k2 | 0 <= k1 < k2 < |c| && 0 <= c[k1] < |es| && 0 <= c[k2] < |es| && es[c[k1]].word == es[c[k2]].word
        ensures c[k1] < c[k2]
      {
        if k2 < |h| {
          assert c[k1] == h[k1] && c[k2] == h[k2];
        } else if k1 >= |h| {
          assert c[k1] == t[k1 - |h|] && c[k2] == t[k2 - |h|];
        } else {
          assert c[k2] == t[k2 - |h|] && c[k1] == h[k1];
          SegregatedFront(es, L, k1, c[k2]);
        }
      }
    }
  }

  /** The concatenation of disjoint lists holds no element twice. */
  lemma {:induction false} ConcatDistinct(L: seq<seq<int>>)
    requires Disjoint(L)
    ensures forall i, j :: 0 <= i < j < |Concat(L)| ==> Concat(L)[i] != Concat(L)[j]
  {
    if L != [] {
      assert Disjoint(L[1..]) by {
        forall a, i, b, j | 0 <= a < |L[1..]| && 0 <= i < |L[1..][a]| && 0 <= b < |L[1..]| && 0 <= j < |L[1..][b]| &&
          L[1..][a][i] == L[1..][b][j]
          ensures a == b && i == j
        {
          assert L[1..][a] == L[a + 1] && L[1..][b] == L[b + 1];
        }
      }
      ConcatDistinct(L[1..]);
      var h := L[0];
      var t := Concat(L[1..]);
      var c := Concat(L);
      assert c == h + t;
      forall i, j | 0 <= i < |h| <= j < |c| ensures c[i] != c[j] {
        assert c[i] == L[0][i] && c[j] == t[j - |h|];
        ConcatMember(L[1..], c[j]);
        var a, k :| 0 <= a < |L[1..]| && 0 <= k < |L[1..][a]| && L[1..][a][k] == c[j];
        assert L[a + 1][k] == c[j];
      }
      forall i, j | 0 <= i < j < |c| ensures c[i] != c[j] {
        if j < |h| {
          assert c[i] == L[0][i] && c[j] == L[0][j];
        } else if i >= |h| {
          assert c[i] == t[i - |h|] && c[j] == t[j - |h|];
        }
      }
    }
  }

  /**
   * In a consistent table the walk over all chains visits every entry
   * exactly once: each element is an entry, each entry occurs, and none
   * occurs twice.
   */
  lemma WalkCoversOnce(heads: seq<int>, es: seq<HEntry>, nx: seq<int>, nh: seq<int>, chains: seq<seq<int>>)
    requires Consistent(heads, es, nx, nh, chains)
    ensures forall k :: 0 <= k < |Concat(chains)| ==> 0 <= Concat(chains)[k] < |es|
    ensures forall e :: 0 <= e < |es| ==> e in Concat(chains)
    ensures forall i, j :: 0 <= i < j < |Concat(chains)| ==> Concat(chains)[i] != Concat(chains)[j]
  {
    var c := Concat(chains);
    forall k | 0 <= k < |c| ensures 0 <= c[k] < |es| {
      ConcatMember(chains, c[k]);
      var a, i :| 0 <= a < |chains| && 0 <= i < |chains[a]| && chains[a][i] == c[k];
      assert InBucket(es, chains, a, i);
    }
    forall e | 0 <= e < |es| ensures e in c {
      assert Chained(es, chains, e);
      var b := Bucket(es[e].hash, |chains|);
      var i :| 0 <= i < |chains[b]| && chains[b][i] == e;
      MemberConcat(chains, b, i);
    }
    ConcatDistinct(chains);
  }

  /** The chains of the table after rehashing into n buckets. */
  function Rehashed(es: seq<HEntry>, chains: seq<seq<int>>, n: int): (r: seq<seq<int>>)
    requires n > 0
    ensures |r| == n
  {
    seq(n, b requires 0 <= b < n => Select(es, n, b, Concat(chains)))
  }

  /**
   * Rehashing a consistent table into n buckets, with heads and links that
   * realise the rehashed chains, gives a consistent table again: the same
   * entries, each in the bucket `hash % n`, homonyms in order.
   */
  lemma RehashedConsistent(heads: seq<int>, es: seq<HEntry>, nx: seq<int>, nh: seq<int>, chains: seq<seq<int>>,
                           n: int, heads': seq<int>, nx': seq<int>)
    requires Consistent(heads, es, nx, nh, chains) && n > 0
    requires |heads'| == n && |nx'| == |es|
    requires forall b :: 0 <= b < n ==> heads'[b] == Head(Rehashed(es, chains, n)[b])
    requires Realizes(nx', Rehashed(es, chains, n)) && Disjoint(Rehashed(es, chains, n))
    ensures Consistent(heads', es, nx', nh, Rehashed(es, chains, n))
  {
    var N := Rehashed(es, chains, n);
    var c := Concat(chains);
    WalkCoversOnce(heads, es, nx, nh, chains);
    forall b, k | 0 <= b < n && 0 <= k < |N[b]| ensures InBucket(es, N, b, k) {
      assert N[b] == Select(es, n, b, c);
      SelectMembers(es, n, b, c);
    }
    forall e | 0 <= e < |es| ensures Chained(es, N, e) {
      var b := Bucket(es[e].hash, n);
      assert N[b] == Select(es, n, b, c) && e in c;
      SelectMembers(es, n, b, c);
      assert e in N[b];
    }
    assert Segregated(es, chains) by {
      forall a, i, b, j | 0 <= a < |chains| && 0 <= i < |chains[a]| && 0 <= b < |chains| && 0 <= j < |chains[b]| &&
        0 <= chains[a][i] < |es| && 0 <= chains[b][j] < |es| && es[chains[a][i]].word == es[chains[b][j]].word
        ensures a == b
      {
        assert InBucket(es, chains, a, i) && InBucket(es, chains, b, j);
        assert HashedAt(es, chains[a][i]) && HashedAt(es, chains[b][j]);
      }
    }
    OrderedConcat(es, chains);
    forall b | 0 <= b < n ensures OrderedSeq(es, N[b]) {
      SelectOrdered(es, n, b, c);
    }
  }

  // ---------------------------------------------------------------------
  // The two phases of Resize

  /**
   * Phase one: with the lists before bucket i emptied and the stack S
   * holding the visited entries, top first, the links realise [S] + T and
   * the stack and the rest of the walk make up the whole walk.
   */
  ghost predicate Gathering(chains: seq<seq<int>>, nx: seq<int>, S: seq<int>, T: seq<seq<int>>, i: int)
  {
    |T| == |chains| && 0 <= i <= |T| &&
    (forall a :: 0 <= a < i ==> T[a] == []) &&
    (forall a :: i < a < |T| ==> T[a] == chains[a]) &&
    Realizes(nx, [S] + T) && Disjoint([S] + T) &&
    |S| <= |Concat(chains)| && S == Reverse(Concat(chains)[..|S|]) && Concat(T) == Concat(chains)[|S|..]
  }

  /** Moving the head x of list i onto the stack: x's old link is the rest of its list, its new link the old top. */
  lemma GatherStep(chains: seq<seq<int>>, nx: seq<int>, S: seq<int>, T: seq<seq<int>>, i: int)
    requires Gathering(chains, nx, S, T, i) && i < |T| && T[i] != []
    ensures var x := T[i][0];
      0 <= x < |nx| && nx[x] == Head(T[i][1..]) &&
      Gathering(chains, nx[x := Head(S)], [x] + S, T[i := T[i][1..]], i)
  {
    var L := [S] + T;
    var x := T[i][0];
    MoveHeadKeeps(nx, L, i + 1, 0);
    assert MoveHead(L, i + 1, 0) == [[x] + S] + T[i := T[i][1..]];
    ConcatFront(T, i);
    var C := Concat(chains);
    var m := |S|;
    assert C[m..] == [x] + Concat(T[i := T[i][1..]]);
    assert C[m] == x && C[m + 1..] == C[m..][1..];
    assert [x] + S == Reverse(C[..m + 1]);
  }

  /** Moving to the next bucket once the current one is exhausted. */
  lemma GatherNext(chains: seq<seq<int>>, nx: seq<int>, S: seq<int>, T: seq<seq<int>>, i: int)
    requires Gathering(chains, nx, S, T, i) && i < |T| && T[i] == []
    ensures Gathering(chains, nx, S, T, i + 1)
  {
  }

  /** A list still to gather starts with an arena index. */
  lemma GatherHead(chains: seq<seq<int>>, nx: seq<int>, S: seq<int>, T: seq<seq<int>>, i: int)
    requires Gathering(chains, nx, S, T, i) && i < |T|
    ensures T[i] != [] ==> 0 <= T[i][0]
  {
    if T[i] != [] {
      assert LinkAt(nx, [S] + T, i + 1, 0);
    }
  }

  /** The start of phase one: the chains themselves and an empty stack. */
  lemma GatherStart(heads: seq<int>, es: seq<HEntry>, nx: seq<int>, nh: seq<int>, chains: seq<seq<int>>)
    requires Consistent(heads, es, nx, nh, chains)
    ensures Gathering(chains, nx, [], chains, 0)
  {
    PrependEmpty(nx, chains);
    assert Concat(chains)[..0] == [];
  }

  /**
   * Phase two: with the m entries still on the stack (top first) and every
   * new chain b holding the entries of the walk after position m that fall
   * into b, the links realise [S] + N.
   */
  ghost predicate Spreading(es: seq<HEntry>, chains: seq<seq<int>>, n: int, nx: seq<int>, S: seq<int>, N: seq<seq<int>>)
  {
    n > 0 && |N| == n && |S| <= |Concat(chains)| &&
    Realizes(nx, [S] + N) && Disjoint([S] + N) &&
    S == Reverse(Concat(chains)[..|S|]) &&
    forall b :: 0 <= b < n ==> N[b] == Select(es, n, b, Concat(chains)[|S|..])
  }

  /** The end of phase one is the start of phase two, with all new chains empty. */
  lemma SpreadStart(es: seq<HEntry>, chains: seq<seq<int>>, nx: seq<int>, S: seq<int>, T: seq<seq<int>>, n: int)
    requires Gathering(chains, nx, S, T, |T|) && n > 0
    ensures Spreading(es, chains, n, nx, S, seq(n, _ => []))
  {
    var E: seq<seq<int>> := seq(|T|, _ => []);
    assert T == E;
    ConcatEmpty(T);
    var N: seq<seq<int>> := seq(n, _ => []);
    KeepFirst(nx, [S] + T, N);
    assert ([S] + T)[0] == S;
  }

  /** Popping the top x of the stack onto the front of its new bucket. */
  lemma SpreadStep(es: seq<HEntry>, chains: seq<seq<int>>, n: int, nx: seq<int>, S: seq<int>, N: seq<seq<int>>, b: int)
    requires Spreading(es, chains, n, nx, S, N) && S != []
    requires 0 <= S[0] < |es| && b == Bucket(es[S[0]].hash, n)
    ensures var x := S[0];
      0 <= x < |nx| && nx[x] == Head(S[1..]) &&
      Spreading(es, chains, n, nx[x := Head(N[b])], S[1..], N[b := [x] + N[b]])
  {
    SpreadLinks(nx, S, N, b);
    var C := Concat(chains);
    var m := |S|;
    ReverseFront(C[..m], S);
    assert C[..m][m - 1] == C[m - 1] && C[..m][..m - 1] == C[..m - 1];
    SpreadSelect(es, C, n, m, N, b);
    assert C[|S[1..]|..] == C[m - 1..];
  }

  /** The list side of a pop: the links realise the stack without x and bucket b with x in front. */
  lemma SpreadLinks(nx: seq<int>, S: seq<int>, N: seq<seq<int>>, b: int)
    requires Realizes(nx, [S] + N) && Disjoint([S] + N) && S != [] && 0 <= b < |N|
    ensures 0 <= S[0] < |nx| && nx[S[0]] == Head(S[1..])
    ensures Realizes(nx[S[0] := Head(N[b])], [S[1..]] + N[b := [S[0]] + N[b]])
    ensures Disjoint([S[1..]] + N[b := [S[0]] + N[b]])
  {
    var L := [S] + N;
    MoveHeadKeeps(nx, L, 0, b + 1);
    assert MoveHead(L, 0, b + 1) == [S[1..]] + N[b := [S[0]] + N[b]];
  }

  /** The front of the reverse of s is the last element of s, followed by the reverse of the rest. */
  lemma {:induction false} ReverseFront(s: seq<int>, S: seq<int>)
    requires S == Reverse(s) && s != []
    ensures S[0] == s[|s| - 1] && S[1..] == Reverse(s[..|s| - 1])
  {
    var t := s[..|s| - 1];
    var R := Reverse(t);
    forall k | 0 <= k < |R| ensures R[k] == S[1..][k] {
      assert R[k] == t[|t| - 1 - k];
    }
  }

  /** The select side of a pop: adding C[m-1] in front of its bucket selects from C[m-1..]. */
  lemma SpreadSelect(es: seq<HEntry>, C: seq<int>, n: int, m: int, N: seq<seq<int>>, b: int)
    requires n > 0 && |N| == n && 0 < m <= |C| && 0 <= C[m - 1] < |es| && b == Bucket(es[C[m - 1]].hash, n)
    requires forall a :: 0 <= a < n ==> N[a] == Select(es, n, a, C[m..])
    ensures forall a :: 0 <= a < n ==> Select(es, n, a, C[m - 1..]) == if a == b then [C[m - 1]] + N[a] else N[a]
  {
    assert C[m - 1..][1..] == C[m..];
  }

  /** The end of phase two: the new chains are the rehashed ones, realised by the links. */
  lemma SpreadEnd(es: seq<HEntry>, chains: seq<seq<int>>, n: int, nx: seq<int>, N: seq<seq<int>>)
    requires Spreading(es, chains, n, nx, [], N)
    ensures N == Rehashed(es, chains, n)
    ensures Realizes(nx, N) && Disjoint(N)
  {
    DropFirst(nx, [[]] + N);
    assert ([[]] + N)[1..] == N;
    assert Concat(chains)[0..] == Concat(chains);
  }

  /** The walk over the first i+1 lists is the walk over the first i, then list i. */
  lemma {:induction false} ConcatSnoc(L: seq<seq<int>>, i: int)
    requires 0 <= i < |L|
    ensures Concat(L[..i + 1]) == Concat(L[..i]) + L[i]
  {
    if i > 0 {
      ConcatSnoc(L[1..], i - 1);
      assert L[..i + 1][1..] == L[1..][..i] && L[..i][1..] == L[1..][..i - 1];
    } else {
      assert L[..1] == [L[0]] && L[..1][1..] == [];
    }
  }
}
