/**
 * The subset-pruned search over one chain of the affix index (AffixMgr.cs,
 * the design comment before process_pfx_order, process_*_order and the
 * search loops of prefix_check / suffix_check).
 *
 * A chain is given by its keys K in chain order, and positions stand for
 * entries. From a position whose key fits the word the search follows
 * `nextEQ` (the next position, when its key extends this one, or the end);
 * otherwise it follows `nextNE` (the first position after the run of keys
 * extending this one, or the end when this position closes the run of an
 * earlier one).
 */
module SubsetWalk {
  import opened Base
  import opened Ordinal

  /** Nondecreasing in ordinal order, the order of every index chain. */
  predicate KeysSorted(K: seq<seq<char>>)
  {
    forall i, j {:trigger LexLe(K[i], K[j])} :: 0 <= i < j < |K| ==> LexLe(K[i], K[j])
  }

  predicate AllDotFree(K: seq<seq<char>>)
  {
    forall i {:trigger DotFree(K[i])} :: 0 <= i < |K| ==> DotFree(K[i])
  }

  /** The first position at or after m whose key is not a subset-extension of K[k], or |K|. */
  function RunFrom(K: seq<seq<char>>, k: nat, m: nat): (r: nat)
    requires k < m <= |K|
    ensures m <= r <= |K|
    ensures forall j {:trigger Subset(K[k], K[j])} :: m <= j < r ==> Subset(K[k], K[j])
    ensures r < |K| ==> !Subset(K[k], K[r])
    decreases |K| - m
  {
    if m == |K| then |K|
    else if !Subset(K[k], K[m]) then m
    else RunFrom(K, k, m + 1)
  }

  /** The end of the run of keys after position k that extend K[k]: the first loop of process_*_order. */
  function RunEnd(K: seq<seq<char>>, k: nat): (r: nat)
    requires k < |K|
    ensures k < r <= |K|
    ensures forall j {:trigger Subset(K[k], K[j])} :: k < j < r ==> Subset(K[k], K[j])
    ensures r < |K| ==> !Subset(K[k], K[r])
  {
    RunFrom(K, k, k + 1)
  }

  /** Position i is the last of a non-empty run of an earlier position: the cleanup pass clears its nextNE. */
  predicate Cleaned(K: seq<seq<char>>, i: nat)
    requires i < |K|
  {
    exists k0 :: 0 <= k0 < i && RunEnd(K, k0) == i + 1
  }

  /** Where nextNE of position i leads (|K| for null). */
  function NEPos(K: seq<seq<char>>, i: nat): (r: nat)
    requires i < |K|
    ensures i < r <= |K|
  {
    if Cleaned(K, i) then |K| else RunEnd(K, i)
  }

  /** Where nextEQ of position i leads (|K| for null). */
  function EQPos(K: seq<seq<char>>, i: nat): (r: nat)
    requires i < |K|
    ensures r == i + 1 || r == |K|
    ensures r == i + 1 && i + 1 < |K| <==> i + 1 < |K| && Subset(K[i], K[i + 1])
  {
    if i + 1 < |K| && Subset(K[i], K[i + 1]) then i + 1 else |K|
  }

  /** The positions the search visits and finds fitting the word W, in order. */
  function Walk(K: seq<seq<char>>, W: seq<char>, k: nat): seq<nat>
    decreases |K| - k
  {
    if k >= |K| then []
    else if Subset(K[k], W) then [k] + Walk(K, W, EQPos(K, k))
    else Walk(K, W, NEPos(K, k))
  }

  /** Every position from k on whose key fits W, in order: a plain scan of the chain. */
  function Matches(K: seq<seq<char>>, W: seq<char>, k: nat): seq<nat>
    decreases |K| - k
  {
    if k >= |K| then []
    else (if Subset(K[k], W) then [k] else []) + Matches(K, W, k + 1)
  }

  /** Strictly increasing: chain order, each position once. */
  predicate Increasing(r: seq<nat>)
  {
    forall i, j :: 0 <= i < j < |r| ==> r[i] < r[j]
  }

  /** Every position in r is at or after k and its key fits W. */
  predicate AllFit(K: seq<seq<char>>, W: seq<char>, r: seq<nat>, k: nat)
  {
    forall i :: 0 <= i < |r| ==> k <= r[i] < |K| && Subset(K[r[i]], W)
  }

  /** Every position at or after k whose key fits W is in r. */
  predicate AllFound(K: seq<seq<char>>, W: seq<char>, r: seq<nat>, k: nat)
  {
    forall j :: k <= j < |K| && Subset(K[j], W) ==> j in r
  }

  /** Putting a position in front of a later list. */
  lemma ConsFacts(K: seq<seq<char>>, W: seq<char>, k: nat, T: seq<nat>, q: nat)
    requires k < q && k < |K| && Subset(K[k], W) && AllFit(K, W, T, q) && Increasing(T)
    ensures AllFit(K, W, [k] + T, k) && Increasing([k] + T)
  {
    var r := [k] + T;
    assert forall i :: 0 < i < |r| ==> r[i] == T[i - 1];
  }

  /** The search is sound, dots or not: it reports only keys that fit, each once, in chain order. */
  lemma {:induction false} WalkSound(K: seq<seq<char>>, W: seq<char>, k: nat)
    ensures AllFit(K, W, Walk(K, W, k), k) && Increasing(Walk(K, W, k))
    decreases |K| - k
  {
    if k < |K| {
      if Subset(K[k], W) {
        WalkSound(K, W, EQPos(K, k));
        ConsFacts(K, W, k, Walk(K, W, EQPos(K, k)), EQPos(K, k));
      } else {
        WalkSound(K, W, NEPos(K, k));
      }
    }
  }

  /** A fitting key at k, put in front of everything found after it, completes what is found from k. */
  lemma FoundCons(K: seq<seq<char>>, W: seq<char>, k: nat, T: seq<nat>)
    requires AllFound(K, W, T, k + 1)
    ensures AllFound(K, W, [k] + T, k)
  {
    assert forall j :: j in T ==> j in [k] + T;
  }

  /** A key at k that does not fit adds nothing to what is found after it. */
  lemma FoundSkip(K: seq<seq<char>>, W: seq<char>, k: nat, T: seq<nat>)
    requires k < |K| && !Subset(K[k], W) && AllFound(K, W, T, k + 1)
    ensures AllFound(K, W, T, k)
  {
  }

  /** The plain scan accepts exactly the positions from k on whose keys fit W, in order. */
  lemma {:induction false} MatchesExact(K: seq<seq<char>>, W: seq<char>, k: nat)
    ensures AllFit(K, W, Matches(K, W, k), k) && AllFound(K, W, Matches(K, W, k), k)
    ensures Increasing(Matches(K, W, k))
    decreases |K| - k
  {
    if k < |K| {
      var T := Matches(K, W, k + 1);
      MatchesExact(K, W, k + 1);
      if Subset(K[k], W) {
        assert Matches(K, W, k) == [k] + T;
        ConsFacts(K, W, k, T, k + 1);
        FoundCons(K, W, k, T);
      } else {
        assert Matches(K, W, k) == T;
        FoundSkip(K, W, k, T);
      }
    }
  }

  /** Subset-extension is transitive, dots included. */
  lemma SubsetTrans(a: seq<char>, b: seq<char>, c: seq<char>)
    requires Subset(a, b) && Subset(b, c)
    ensures Subset(a, c)
  {
  }

  /** When the keys carry no dots, two keys fitting W at k < j put j inside the run of k. */
  lemma {:induction false} LaterMatchInRun(K: seq<seq<char>>, W: seq<char>, k: nat, j: nat)
    requires KeysSorted(K) && AllDotFree(K)
    requires k < j < |K| && Subset(K[k], W) && Subset(K[j], W)
    ensures j < RunEnd(K, k)
  {
    SubsetIsPrefix(K[k], W);
    SubsetIsPrefix(K[j], W);
    PrefixesNest(K[k], K[j], W);
    if !IsPrefix(K[k], K[j]) {
      PrefixLexLe(K[j], K[k]);
      LexLeAntisym(K[j], K[k]);
      assert false;
    }
    var e := RunEnd(K, k);
    if e <= j {
      assert LexLe(K[k], K[e]) && LexLe(K[e], K[j]);
      BetweenExtends(K[k], K[e], K[j]);
      SubsetIsPrefix(K[k], K[e]);
      assert false;
    }
  }

  /** Past the run of a fitting key, no dot-free key of a sorted chain fits. */
  lemma NotAfterRun(K: seq<seq<char>>, W: seq<char>, k: nat, j: nat)
    requires KeysSorted(K) && AllDotFree(K)
    requires k < j < |K| && Subset(K[k], W) && RunEnd(K, k) <= j
    ensures !Subset(K[j], W)
  {
    if Subset(K[j], W) {
      LaterMatchInRun(K, W, k, j);
    }
  }

  lemma {:induction false} MatchesNone(K: seq<seq<char>>, W: seq<char>, k: nat)
    requires forall j :: k <= j < |K| ==> !Subset(K[j], W)
    ensures Matches(K, W, k) == []
    decreases |K| - k
  {
    if k < |K| {
      MatchesNone(K, W, k + 1);
    }
  }

  lemma {:induction false} MatchesSkip(K: seq<seq<char>>, W: seq<char>, k: nat, e: nat)
    requires k <= e <= |K|
    requires forall j :: k <= j < e ==> !Subset(K[j], W)
    ensures Matches(K, W, k) == Matches(K, W, e)
    decreases e - k
  {
    if k < e {
      MatchesSkip(K, W, k + 1, e);
    }
  }

  /** Every earlier position whose run covers k had a key fitting W: how the search arrives at k. */
  predicate ArrivedOk(K: seq<seq<char>>, W: seq<char>, k: nat)
    requires k <= |K|
  {
    forall j {:trigger RunEnd(K, j)} :: 0 <= j < k && k < RunEnd(K, j) ==> Subset(K[j], W)
  }

  /** A fitting key whose nextEQ leads on: the search arrives at the next position properly. */
  lemma ArrivedNext(K: seq<seq<char>>, W: seq<char>, k: nat)
    requires k < |K| && ArrivedOk(K, W, k) && Subset(K[k], W)
    ensures ArrivedOk(K, W, k + 1)
  {
  }

  /** A fitting key with a null nextEQ: nothing after it fits. */
  lemma NoneAfterFit(K: seq<seq<char>>, W: seq<char>, k: nat)
    requires KeysSorted(K) && AllDotFree(K)
    requires k < |K| && Subset(K[k], W) && EQPos(K, k) == |K|
    ensures Matches(K, W, k + 1) == []
  {
    forall j | k + 1 <= j < |K| ensures !Subset(K[j], W) {
      NotAfterRun(K, W, k, j);
    }
    MatchesNone(K, W, k + 1);
  }

  /** A key closing the run of an earlier fitting key, not fitting itself: nothing from it on fits. */
  lemma NoneAfterCleaned(K: seq<seq<char>>, W: seq<char>, k0: nat, k: nat)
    requires KeysSorted(K) && AllDotFree(K)
    requires k0 < k < |K| && !Subset(K[k], W) && Subset(K[k0], W) && RunEnd(K, k0) == k + 1
    ensures Matches(K, W, k) == []
  {
    forall j | k <= j < |K| ensures !Subset(K[j], W) {
      if j > k {
        NotAfterRun(K, W, k0, j);
      }
    }
    MatchesNone(K, W, k);
  }

  /** A key not fitting: no key of its run fits. */
  lemma SkipRun(K: seq<seq<char>>, W: seq<char>, k: nat)
    requires k < |K| && !Subset(K[k], W)
    ensures Matches(K, W, k) == Matches(K, W, RunEnd(K, k))
  {
    var e := RunEnd(K, k);
    forall j | k <= j < e ensures !Subset(K[j], W) {
      if j > k && Subset(K[j], W) {
        assert Subset(K[k], K[j]);
        SubsetTrans(K[k], K[j], W);
      }
    }
    MatchesSkip(K, W, k, e);
  }

  /** ... and the search arrives properly at the end of that run. */
  lemma SkipArrives(K: seq<seq<char>>, W: seq<char>, k: nat)
    requires k < |K| && ArrivedOk(K, W, k) && !Subset(K[k], W)
    ensures ArrivedOk(K, W, RunEnd(K, k))
  {
    var e := RunEnd(K, k);
    forall j | 0 <= j < e && e < RunEnd(K, j) ensures Subset(K[j], W) {
      if k < j {
        assert Subset(K[k], K[j]);
        SubsetTrans(K[k], K[j], K[e]);
      }
    }
  }

  /**
   * Subset pruning is complete: on a sorted chain of dot-free keys the
   * search visits exactly the positions a plain scan would accept, in
   * chain order.
   */
  lemma {:induction false} WalkComplete(K: seq<seq<char>>, W: seq<char>, k: nat)
    requires KeysSorted(K) && AllDotFree(K) && k <= |K| && ArrivedOk(K, W, k)
    ensures Walk(K, W, k) == Matches(K, W, k)
    decreases |K| - k
  {
    if k == |K| {
    } else if Subset(K[k], W) {
      if EQPos(K, k) == k + 1 {
        ArrivedNext(K, W, k);
        WalkComplete(K, W, k + 1);
      } else {
        NoneAfterFit(K, W, k);
      }
    } else if Cleaned(K, k) {
      var k0 :| 0 <= k0 < k && RunEnd(K, k0) == k + 1;
      NoneAfterCleaned(K, W, k0, k);
    } else {
      SkipRun(K, W, k);
      SkipArrives(K, W, k);
      WalkComplete(K, W, RunEnd(K, k));
    }
  }

  /** The search from the head of the chain: visited == accepted by a plain scan. */
  lemma WalkFindsAll(K: seq<seq<char>>, W: seq<char>)
    requires KeysSorted(K) && AllDotFree(K)
    ensures Walk(K, W, 0) == Matches(K, W, 0)
  {
    WalkComplete(K, W, 0);
  }

  /**
   * With dots in the keys the pruning is incomplete: in the sorted chain
   * "a.c", "ab", "abc" all three keys fit "abc", but the search stops after
   * the first, whose nextEQ is null.
   */
  lemma DottedKeysMissed()
    ensures KeysSorted(["a.c", "ab", "abc"])
    ensures Walk(["a.c", "ab", "abc"], "abc", 0) == [0]
    ensures Matches(["a.c", "ab", "abc"], "abc", 0) == [0, 1, 2]
  {
    var K: seq<seq<char>> := ["a.c", "ab", "abc"];
    assert LexLe(K[0], K[1]) && LexLe(K[1], K[2]) && LexLe(K[0], K[2]);
    assert Subset(K[0], "abc");
    assert !Subset(K[0], K[1]);
    assert EQPos(K, 0) == 3;
    assert Subset(K[1], "abc") && Subset(K[2], "abc");
    assert Matches(K, "abc", 3) == [];
  }
}
