/**
 * The edit-based candidate generators of the suggestion manager
 * (SuggestMgr.cs): each builds misspelling repairs of a word in a char
 * buffer it edits in place, and offers every candidate to testsug, which
 * keeps the ones the dictionary accepts. The dictionary check `checkword`
 * for the current compound mode is a parameter (a `Checker`).
 *
 * Each generator is specified by the sequence of candidates it offers, in
 * order; the lemmas say what those candidates are.
 */
module Suggest {
  import opened Base
  import opened ListUtils

  /** maxSug: the most suggestions a list collects. */
  const MAX_SUG: nat := 15
  /** MAX_CHAR_DISTANCE: the farthest apart two positions longswapchar and movechar exchange. */
  const MAX_CHAR_DISTANCE: nat := 4

  /** The SPELL flags the generators set in `info` (COMPOUND = 1 << 0, BEST_SUG = 1 << 8). */
  datatype Spell = Compound | BestSug

  /** `info`, a [Flags] ushort, as the set of its flags that are on. */
  type Info = set<Spell>

  /**
   * checkword(candidate, cpdsuggest, timer) for the compound mode in force:
   * 0 rejects, 1 accepts, 2 and 3 accept a compound.
   */
  type Checker = string -> nat

  /** The suggestion list and the info bits, as a generator leaves them. */
  datatype Sugs = Sugs(list: seq<string>, info: Info)

  // ---------------------------------------------------------------------
  // testsug
  // ---------------------------------------------------------------------

  /** testsug: keep an accepted candidate not yet listed, unless the list is full. */
  function AfterTest(s: Sugs, cand: string, cpd: int, check: Checker): Sugs
  {
    if |s.list| == MAX_SUG || cand in s.list then s
    else if check(cand) == 0 then s
    else Sugs(s.list + [cand], if cpd == 0 && check(cand) >= 2 then s.info + {Compound} else s.info)
  }

  /** The candidates offered to testsug one after the other. */
  function Tried(s: Sugs, cands: seq<string>, cpd: int, check: Checker): Sugs
    decreases |cands|
  {
    if cands == [] then s else Tried(AfterTest(s, cands[0], cpd, check), cands[1..], cpd, check)
  }

  /** The list only grows at its end, by accepted candidates it did not hold. */
  lemma AfterTestGrows(s: Sugs, cand: string, cpd: int, check: Checker)
    ensures var r := AfterTest(s, cand, cpd, check);
            || r.list == s.list
            || (r.list == s.list + [cand] && |s.list| != MAX_SUG && cand !in s.list && check(cand) != 0)
    ensures (|s.list| != MAX_SUG && cand !in s.list && check(cand) != 0) ==> cand in AfterTest(s, cand, cpd, check).list
  {
  }

  lemma {:induction false} TriedSnoc(s: Sugs, cands: seq<string>, c: string, cpd: int, check: Checker)
    ensures Tried(s, cands + [c], cpd, check) == AfterTest(Tried(s, cands, cpd, check), c, cpd, check)
    decreases |cands|
  {
    if cands != [] {
      assert (cands + [c])[1..] == cands[1..] + [c];
      TriedSnoc(AfterTest(s, cands[0], cpd, check), cands[1..], c, cpd, check);
    }
  }

  lemma {:induction false} TriedAppend(s: Sugs, a: seq<string>, b: seq<string>, cpd: int, check: Checker)
    ensures Tried(s, a + b, cpd, check) == Tried(Tried(s, a, cpd, check), b, cpd, check)
    decreases |a|
  {
    if a != [] {
      assert (a + b)[0] == a[0] && (a + b)[1..] == a[1..] + b;
      TriedAppend(AfterTest(s, a[0], cpd, check), a[1..], b, cpd, check);
      assert Tried(s, a + b, cpd, check) == Tried(AfterTest(s, a[0], cpd, check), a[1..] + b, cpd, check);
    } else {
      assert a + b == b;
    }
  }

  lemma TriedOne(s: Sugs, a: string, cpd: int, check: Checker)
    ensures Tried(s, [a], cpd, check) == AfterTest(s, a, cpd, check)
  {
    assert [a][1..] == [];
  }

  lemma TriedPair(s: Sugs, a: string, b: string, cpd: int, check: Checker)
    ensures Tried(s, [a, b], cpd, check) == AfterTest(AfterTest(s, a, cpd, check), b, cpd, check)
  {
    assert [a, b][1..] == [b];
    TriedOne(AfterTest(s, a, cpd, check), b, cpd, check);
  }

  /** testsug never lets a list that is not over the limit grow past maxSug. */
  lemma {:induction false} TriedBounded(s: Sugs, cands: seq<string>, cpd: int, check: Checker)
    requires |s.list| <= MAX_SUG
    ensures |Tried(s, cands, cpd, check).list| <= MAX_SUG
    decreases |cands|
  {
    if cands != [] {
      TriedBounded(AfterTest(s, cands[0], cpd, check), cands[1..], cpd, check);
    }
  }

  /** testsug never adds a suggestion already present. */
  lemma {:induction false} TriedDistinct(s: Sugs, cands: seq<string>, cpd: int, check: Checker)
    requires Distinct(s.list)
    ensures Distinct(Tried(s, cands, cpd, check).list)
    decreases |cands|
  {
    if cands != [] {
      var t := AfterTest(s, cands[0], cpd, check);
      AfterTestGrows(s, cands[0], cpd, check);
      TriedDistinct(t, cands[1..], cpd, check);
    }
  }

  /**
   * What the candidates leave: the old list followed by accepted
   * candidates only, and every accepted candidate listed unless the list
   * filled up.
   */
  lemma {:induction false} TriedKeeps(s: Sugs, cands: seq<string>, cpd: int, check: Checker)
    ensures var r := Tried(s, cands, cpd, check);
            && IsPrefix(s.list, r.list)
            && (forall k :: |s.list| <= k < |r.list| ==> r.list[k] in cands && check(r.list[k]) != 0)
            && (forall c :: c in cands && check(c) != 0 && |r.list| < MAX_SUG ==> c in r.list)
    decreases |cands|
  {
    if cands != [] {
      var t := AfterTest(s, cands[0], cpd, check);
      AfterTestGrows(s, cands[0], cpd, check);
      TriedKeeps(t, cands[1..], cpd, check);
      var r := Tried(s, cands, cpd, check);
      assert IsPrefix(t.list, r.list);
      forall c | c in cands && check(c) != 0 && |r.list| < MAX_SUG
        ensures c in r.list
      {
        if c !in cands[1..] {
          assert c == cands[0];
          TriedMonotone(t, cands[1..], cpd, check);
          assert |t.list| < MAX_SUG;
          assert c in t.list;
          assert r.list[..|t.list|] == t.list;
        }
      }
    }
  }

  /** The list never shrinks. */
  lemma {:induction false} TriedMonotone(s: Sugs, cands: seq<string>, cpd: int, check: Checker)
    ensures IsPrefix(s.list, Tried(s, cands, cpd, check).list)
    decreases |cands|
  {
    if cands != [] {
      var t := AfterTest(s, cands[0], cpd, check);
      AfterTestGrows(s, cands[0], cpd, check);
      TriedMonotone(t, cands[1..], cpd, check);
    }
  }

  /**
   * The caller's `wlst` and `info` (the list object every generator appends
   * to, and the `ref SPELL` argument).
   */
  class SugList {
    var list: seq<string>
    var info: Info

    constructor (list0: seq<string>, info0: Info)
      ensures list == list0 && info == info0
    {
      list := list0;
      info := info0;
    }

    /** The list and the bits as a value. */
    function State(): Sugs
      reads this
    {
      Sugs(list, info)
    }

    /** testsug(wlst, candidate, cpdsuggest, timer, info). */
    method TestSug(cand: string, cpd: int, check: Checker)
      modifies this
      ensures State() == AfterTest(old(State()), cand, cpd, check)
    {
      if |list| == MAX_SUG {
        return;
      }
      if cand !in list {
        var result := check(cand);
        if result != 0 {
          if cpd == 0 && result >= 2 {
            info := info + {Compound};
          }
          list := list + [cand];
        }
      }
    }
  }

  // ---------------------------------------------------------------------
  // extrachar
  // ---------------------------------------------------------------------

  /** word.Remove(i, 1). */
  function Removed(w: string, i: nat): (r: string)
    requires i < |w|
    ensures |r| == |w| - 1
  {
    w[..i] + w[i + 1..]
  }

  /** The deletions extrachar tries: from the last position down to the first. */
  function ExtraCands(w: string): seq<string>
  {
    if |w| < 2 then [] else seq(|w|, k requires 0 <= k < |w| => Removed(w, |w| - 1 - k))
  }

  /** One more deletion tried by extrachar: the one at position |w| - 1 - n. */
  lemma ExtraNext(r0: Sugs, w: string, n: nat, cpd: int, check: Checker)
    requires 2 <= |w| && n < |w|
    ensures Tried(r0, ExtraCands(w)[..n + 1], cpd, check) ==
      AfterTest(Tried(r0, ExtraCands(w)[..n], cpd, check), w[..|w| - 1 - n] + w[|w| - n..], cpd, check)
  {
    var cs := ExtraCands(w);
    assert cs[n] == Removed(w, |w| - 1 - n);
    TriedSnoc(r0, cs[..n], cs[n], cpd, check);
    assert cs[..n] + [cs[n]] == cs[..n + 1];
  }

  /** extrachar tries exactly the single-character deletions, and none for words shorter than 2. */
  lemma ExtraCandsAre(w: string, c: string)
    ensures c in ExtraCands(w) <==> |w| >= 2 && exists i :: 0 <= i < |w| && c == Removed(w, i)
  {
    if |w| >= 2 && exists i :: 0 <= i < |w| && c == Removed(w, i) {
      var i :| 0 <= i < |w| && c == Removed(w, i);
      assert ExtraCands(w)[|w| - 1 - i] == c;
    }
  }

  /** extrachar(wlst, word, cpdsuggest, info). */
  method ExtraChar(sl: SugList, word: string, cpd: int, check: Checker)
    modifies sl
    ensures sl.State() == Tried(old(sl.State()), ExtraCands(word), cpd, check)
  {
    if |word| < 2 {
      return;
    }
    ghost var s0 := sl.State();
    ghost var cs := ExtraCands(word);
    var i := |word| - 1;
    while i >= 0
      invariant -1 <= i < |word|
      invariant sl.State() == Tried(s0, cs[..|word| - 1 - i], cpd, check)
    {
      ExtraNext(s0, word, |word| - 1 - i, cpd, check);
      sl.TestSug(word[..i] + word[i + 1..], cpd, check);
      i := i - 1;
    }
    assert cs[..|word|] == cs;
  }

  // ---------------------------------------------------------------------
  // swapchar
  // ---------------------------------------------------------------------

  /** The word with the characters at i and j exchanged. */
  function Swapped(w: string, i: nat, j: nat): (r: string)
    requires i < |w| && j < |w|
    ensures |r| == |w|
  {
    seq(|w|, k requires 0 <= k < |w| => if k == i then w[j] else if k == j then w[i] else w[k])
  }

  /** Exchanging twice restores the word. */
  lemma SwappedTwice(w: string, i: nat, j: nat)
    requires i < |w| && j < |w|
    ensures Swapped(Swapped(w, i, j), i, j) == w
  {
  }

  /** An exchange keeps the characters of the word. */
  lemma SwappedPermutes(w: string, i: nat, j: nat)
    requires i < |w| && j < |w|
    ensures multiset(Swapped(w, i, j)) == multiset(w)
  {
    var r := Swapped(w, i, j);
    if i != j {
      var u := w[i := w[j]];
      assert r == u[j := w[i]];
      assert multiset(u) == multiset(w) - multiset{w[i]} + multiset{w[j]};
      assert multiset(r) == multiset(u) - multiset{w[j]} + multiset{w[i]};
    } else {
      assert r == w;
    }
  }

  /** The exchange of positions i and i + 1. */
  function AdjSwapped(w: string, i: nat): string
    requires i + 1 < |w|
  {
    Swapped(w, i, i + 1)
  }

  /**
   * Exchange positions i and j of the buffer, offer it to testsug and
   * exchange them back: the buffer holds the word again.
   */
  method SwapTest(sl: SugList, cand: array<char>, ghost word: string, i: nat, j: nat, cpd: int, check: Checker)
    requires cand[..] == word && i < |word| && j < |word|
    modifies sl, cand
    ensures cand[..] == word
    ensures sl.State() == AfterTest(old(sl.State()), Swapped(word, i, j), cpd, check)
  {
    var t := cand[i];
    cand[i] := cand[j];
    cand[j] := t;
    assert cand[..] == Swapped(word, i, j);
    sl.TestSug(cand[..], cpd, check);
    cand[j] := cand[i];
    cand[i] := t;
  }

  /** The adjacent exchanges, from the first pair to the last. */
  function AdjacentSwaps(w: string): seq<string>
    requires |w| >= 1
  {
    seq(|w| - 1, i requires 0 <= i < |w| - 1 => AdjSwapped(w, i))
  }

  /** The double exchanges tried on words of 4 and 5 characters. */
  function DoubleSwaps(w: string): seq<string>
  {
    (if |w| == 4 || |w| == 5 then [Swapped(Swapped(w, 0, 1), |w| - 2, |w| - 1)] else [])
    + (if |w| == 5 then [Swapped(Swapped(w, 1, 2), 3, 4)] else [])
  }

  /** The candidates swapchar offers. */
  function SwapCands(w: string): seq<string>
  {
    if |w| < 2 then [] else AdjacentSwaps(w) + DoubleSwaps(w)
  }

  /**
   * swapchar offers each adjacent exchange, then for 4- and 5-letter words
   * exchanges of two pairs; every candidate is a rearrangement of the word.
   */
  lemma SwapCandsAre(w: string, c: string)
    ensures c in SwapCands(w) <==>
              || (|w| >= 2 && exists i :: 0 <= i < |w| - 1 && c == AdjSwapped(w, i))
              || ((|w| == 4 || |w| == 5) && c == Swapped(Swapped(w, 0, 1), |w| - 2, |w| - 1))
              || (|w| == 5 && c == Swapped(Swapped(w, 1, 2), 3, 4))
    ensures c in SwapCands(w) ==> multiset(c) == multiset(w)
  {
    if |w| >= 2 && exists i :: 0 <= i < |w| - 1 && c == AdjSwapped(w, i) {
      var i :| 0 <= i < |w| - 1 && c == AdjSwapped(w, i);
      assert AdjacentSwaps(w)[i] == c;
    }
    if c in SwapCands(w) {
      if c in AdjacentSwaps(w) {
        var i :| 0 <= i < |w| - 1 && AdjacentSwaps(w)[i] == c;
        SwappedPermutes(w, i, i + 1);
      } else if c == Swapped(Swapped(w, 0, 1), |w| - 2, |w| - 1) {
        SwappedPermutes(w, 0, 1);
        SwappedPermutes(Swapped(w, 0, 1), |w| - 2, |w| - 1);
      } else {
        SwappedPermutes(w, 1, 2);
        SwappedPermutes(Swapped(w, 1, 2), 3, 4);
      }
    }
  }

  /** swapchar: the buffer is restored to the word after every adjacent exchange. */
  method SwapChar(sl: SugList, word: string, cpd: int, check: Checker)
    modifies sl
    ensures sl.State() == Tried(old(sl.State()), SwapCands(word), cpd, check)
  {
    var wl := |word|;
    if wl < 2 {
      return;
    }
    var cand := new char[wl](k requires 0 <= k < wl => word[k]);
    ghost var s0 := sl.State();
    ghost var adj := AdjacentSwaps(word);
    var i := 0;
    while i < wl - 1
      invariant 0 <= i <= wl - 1
      invariant cand[..] == word
      invariant sl.State() == Tried(s0, adj[..i], cpd, check)
    {
      SwapTest(sl, cand, word, i, i + 1, cpd, check);
      TriedSnoc(s0, adj[..i], adj[i], cpd, check);
      assert adj[..i] + [adj[i]] == adj[..i + 1];
      i := i + 1;
    }
    assert adj[..i] == adj;
    if wl == 4 || wl == 5 {
      DoubleSwapTest(sl, cand, word, cpd, check);
      TriedAppend(s0, adj, DoubleSwaps(word), cpd, check);
    } else {
      assert DoubleSwaps(word) == [];
      assert SwapCands(word) == adj;
    }
  }

  /** The double exchanges of swapchar, written into the buffer from the word. */
  method DoubleSwapTest(sl: SugList, cand: array<char>, word: string, cpd: int, check: Checker)
    requires cand.Length == |word| && (|word| == 4 || |word| == 5)
    modifies sl, cand
    ensures sl.State() == Tried(old(sl.State()), DoubleSwaps(word), cpd, check)
  {
    var wl := |word|;
    ghost var s0 := sl.State();
    cand[0] := word[1];
    cand[1] := word[0];
    cand[2] := word[2];
    cand[wl - 2] := word[wl - 1];
    cand[wl - 1] := word[wl - 2];
    ghost var d1 := Swapped(Swapped(word, 0, 1), wl - 2, wl - 1);
    assert cand[..] == d1 by {
      if wl == 5 {
        assert cand[3] == d1[3];
      }
    }
    sl.TestSug(cand[..], cpd, check);
    if wl == 5 {
      cand[0] := word[0];
      cand[1] := word[2];
      cand[2] := word[1];
      ghost var d2 := Swapped(Swapped(word, 1, 2), 3, 4);
      assert cand[..] == d2;
      sl.TestSug(cand[..], cpd, check);
      assert DoubleSwaps(word) == [d1, d2];
      TriedPair(s0, d1, d2, cpd, check);
    } else {
      assert DoubleSwaps(word) == [d1];
      TriedOne(s0, d1, cpd, check);
    }
  }

  // ---------------------------------------------------------------------
  // longswapchar
  // ---------------------------------------------------------------------

  /** Two positions longswapchar exchanges: 2 to MAX_CHAR_DISTANCE apart. */
  predicate Far(p: int, q: int)
  {
    (1 < q - p <= MAX_CHAR_DISTANCE) || (1 < p - q <= MAX_CHAR_DISTANCE)
  }

  /** The exchanges of p with each q' < q, in order of q'. */
  function LongRow(w: string, p: nat, q: nat): seq<string>
    requires p < |w| && q <= |w|
  {
    if q == 0 then [] else LongRow(w, p, q - 1) + (if Far(p, q - 1) then [Swapped(w, p, q - 1)] else [])
  }

  /** The rows of the positions before p. */
  function LongCands(w: string, p: nat): seq<string>
    requires p <= |w|
  {
    if p == 0 then [] else LongCands(w, p - 1) + LongRow(w, p - 1, |w|)
  }

  lemma {:induction false} LongRowAre(w: string, p: nat, q: nat, c: string)
    requires p < |w| && q <= |w|
    ensures c in LongRow(w, p, q) <==> exists j :: 0 <= j < q && Far(p, j) && c == Swapped(w, p, j)
  {
    if q > 0 {
      LongRowAre(w, p, q - 1, c);
    }
  }

  lemma {:induction false} LongCandsAt(w: string, p: nat, c: string)
    requires p <= |w|
    ensures c in LongCands(w, p) <==> exists i, j :: 0 <= i < p && 0 <= j < |w| && Far(i, j) && c == Swapped(w, i, j)
  {
    if p > 0 {
      LongCandsAt(w, p - 1, c);
      LongRowAre(w, p - 1, |w|, c);
    }
  }

  /** longswapchar offers exactly the exchanges of two positions 2 to 4 apart. */
  lemma LongSwapCandsAre(w: string, c: string)
    ensures c in LongCands(w, |w|) <==> exists i, j :: 0 <= i < |w| && 0 <= j < |w| && Far(i, j) && c == Swapped(w, i, j)
  {
    LongCandsAt(w, |w|, c);
  }

  /** longswapchar: the buffer is restored after every exchange. */
  method LongSwapChar(sl: SugList, word: string, cpd: int, check: Checker)
    modifies sl
    ensures sl.State() == Tried(old(sl.State()), LongCands(word, |word|), cpd, check)
  {
    var n := |word|;
    var cand := new char[n](k requires 0 <= k < n => word[k]);
    ghost var s0 := sl.State();
    var p := 0;
    while p < n
      invariant 0 <= p <= n && cand[..] == word
      invariant sl.State() == Tried(s0, LongCands(word, p), cpd, check)
    {
      LongRowTest(sl, cand, word, p, cpd, check);
      TriedAppend(s0, LongCands(word, p), LongRow(word, p, n), cpd, check);
      p := p + 1;
    }
  }

  /** The inner loop of longswapchar: position p against every q. */
  method LongRowTest(sl: SugList, cand: array<char>, ghost word: string, p: nat, cpd: int, check: Checker)
    requires cand[..] == word && p < |word|
    modifies sl, cand
    ensures cand[..] == word
    ensures sl.State() == Tried(old(sl.State()), LongRow(word, p, |word|), cpd, check)
  {
    ghost var r0 := sl.State();
    var n := cand.Length;
    var q := 0;
    while q < n
      invariant 0 <= q <= n && cand[..] == word
      invariant sl.State() == Tried(r0, LongRow(word, p, q), cpd, check)
    {
      var distance := if q < p then p - q else q - p;
      assert LongRow(word, p, q + 1) == LongRow(word, p, q) + (if Far(p, q) then [Swapped(word, p, q)] else []);
      if distance > 1 && distance <= MAX_CHAR_DISTANCE {
        SwapTest(sl, cand, word, p, q, cpd, check);
        TriedSnoc(r0, LongRow(word, p, q), Swapped(word, p, q), cpd, check);
      } else {
        assert LongRow(word, p, q + 1) == LongRow(word, p, q);
      }
      q := q + 1;
    }
  }

  // ---------------------------------------------------------------------
  // movechar
  // ---------------------------------------------------------------------

  /** The word with its character at p moved right to position q. */
  function MovedRight(w: string, p: nat, q: nat): (r: string)
    requires p <= q < |w|
    ensures |r| == |w|
  {
    seq(|w|, k requires 0 <= k < |w| => if k < p || q < k then w[k] else if k < q then w[k + 1] else w[p])
  }

  /** The word with its character at p moved left to position q. */
  function MovedLeft(w: string, p: nat, q: nat): (r: string)
    requires q <= p < |w|
    ensures |r| == |w|
  {
    seq(|w|, k requires 0 <= k < |w| => if k < q || p < k then w[k] else if k == q then w[p] else w[k - 1])
  }

  /** What a move is: the character taken out at p and put back in at q. */
  lemma MovedAre(w: string, p: nat, q: nat)
    requires p < |w| && q < |w|
    ensures p <= q ==> MovedRight(w, p, q) == w[..p] + w[p + 1..q + 1] + [w[p]] + w[q + 1..]
    ensures p <= q ==> Removed(MovedRight(w, p, q), q) == Removed(w, p)
    ensures q <= p ==> MovedLeft(w, p, q) == w[..q] + [w[p]] + w[q..p] + w[p + 1..]
    ensures q <= p ==> Removed(MovedLeft(w, p, q), q) == Removed(w, p)
  {
    if p <= q {
      MovedRightIs(w, p, q);
    }
    if q <= p {
      MovedLeftIs(w, p, q);
    }
  }

  lemma MovedRightIs(w: string, p: nat, q: nat)
    requires p <= q < |w|
    ensures MovedRight(w, p, q) == w[..p] + w[p + 1..q + 1] + [w[p]] + w[q + 1..]
    ensures Removed(MovedRight(w, p, q), q) == Removed(w, p)
  {
    var m := MovedRight(w, p, q);
    assert m == w[..p] + w[p + 1..q + 1] + [w[p]] + w[q + 1..];
    assert m[..q] == w[..p] + w[p + 1..q + 1];
    assert w[..p] + w[p + 1..] == w[..p] + (w[p + 1..q + 1] + w[q + 1..]);
  }

  lemma MovedLeftIs(w: string, p: nat, q: nat)
    requires q <= p < |w|
    ensures MovedLeft(w, p, q) == w[..q] + [w[p]] + w[q..p] + w[p + 1..]
    ensures Removed(MovedLeft(w, p, q), q) == Removed(w, p)
  {
    var m := MovedLeft(w, p, q);
    assert m == w[..q] + [w[p]] + w[q..p] + w[p + 1..];
    assert m[q + 1..] == w[q..p] + w[p + 1..];
    assert w[..p] == w[..q] + w[q..p];
  }

  /** One step of the forward loop: exchanging q - 1 and q carries the character one place on. */
  lemma MovedRightStep(w: string, p: nat, q: nat)
    requires p < q < |w|
    ensures MovedRight(w, p, q) == MovedRight(w, p, q - 1)[q := w[p]][q - 1 := w[q]]
  {
  }

  /** One step of the backward loop. */
  lemma MovedLeftStep(w: string, p: nat, q: nat)
    requires q < p < |w|
    ensures MovedLeft(w, p, q) == MovedLeft(w, p, q + 1)[q := w[p]][q + 1 := w[q]]
  {
  }

  /** The forward moves of p tried before step q (moves by at least 2). */
  function RightRow(w: string, p: nat, q: nat): seq<string>
    requires p < q <= |w|
  {
    if q <= p + 2 then [] else RightRow(w, p, q - 1) + [MovedRight(w, p, q - 1)]
  }

  /** The end of the forward inner loop: q < n and q - p <= MAX_CHAR_DISTANCE. */
  function RightEnd(n: nat, p: nat): nat
  {
    if n < p + MAX_CHAR_DISTANCE + 1 then n else p + MAX_CHAR_DISTANCE + 1
  }

  /** The forward rows of the positions before p. */
  function RightCands(w: string, p: nat): seq<string>
    requires p < |w|
  {
    if p == 0 then [] else RightCands(w, p - 1) + RightRow(w, p - 1, RightEnd(|w|, p - 1))
  }

  /** The backward moves of p tried after step q (moves by at least 2). */
  function LeftRow(w: string, p: nat, q: int): seq<string>
    requires -1 <= q < p < |w|
    decreases p - q
  {
    if q + 2 >= p then [] else LeftRow(w, p, q + 1) + [MovedLeft(w, p, q + 1)]
  }

  /** The end of the backward inner loop: q >= 0 and p - q <= MAX_CHAR_DISTANCE. */
  function LeftEnd(p: nat): int
  {
    if p < MAX_CHAR_DISTANCE + 1 then -1 else p - MAX_CHAR_DISTANCE - 1
  }

  /** The backward rows of the positions after p, from the last position down. */
  function LeftCands(w: string, p: nat): seq<string>
    requires p < |w|
    decreases |w| - p
  {
    if p + 1 == |w| then [] else LeftCands(w, p + 1) + LeftRow(w, p + 1, LeftEnd(p + 1))
  }

  /** The candidates movechar offers. */
  function MoveCands(w: string): seq<string>
  {
    if |w| < 2 then [] else RightCands(w, |w| - 1) + LeftCands(w, 0)
  }

  lemma {:induction false} RightRowAre(w: string, p: nat, q: nat, c: string)
    requires p < q <= |w|
    ensures c in RightRow(w, p, q) <==> exists j :: p + 2 <= j < q && c == MovedRight(w, p, j)
    decreases q
  {
    if q > p + 2 {
      RightRowAre(w, p, q - 1, c);
      var m := MovedRight(w, p, q - 1);
      assert RightRow(w, p, q) == RightRow(w, p, q - 1) + [m];
      if c in RightRow(w, p, q) && c !in RightRow(w, p, q - 1) {
        assert c == m;
      }
    }
  }

  lemma {:induction false} RightCandsAre(w: string, p: nat, c: string)
    requires p < |w|
    ensures c in RightCands(w, p) <==>
              exists i, j :: 0 <= i < p && i + 2 <= j < |w| && j - i <= MAX_CHAR_DISTANCE && c == MovedRight(w, i, j)
  {
    if p > 0 {
      RightCandsAre(w, p - 1, c);
      RightRowAre(w, p - 1, RightEnd(|w|, p - 1), c);
    }
  }

  lemma {:induction false} LeftRowAre(w: string, p: nat, q: int, c: string)
    requires -1 <= q < p < |w|
    ensures c in LeftRow(w, p, q) <==> exists j :: q < j && j + 2 <= p && c == MovedLeft(w, p, j)
    decreases p - q
  {
    if q + 2 < p {
      LeftRowAre(w, p, q + 1, c);
      var m := MovedLeft(w, p, q + 1);
      assert LeftRow(w, p, q) == LeftRow(w, p, q + 1) + [m];
      if c in LeftRow(w, p, q) && c !in LeftRow(w, p, q + 1) {
        assert c == m;
      }
    }
  }

  lemma {:induction false} LeftCandsAre(w: string, p: nat, c: string)
    requires p < |w|
    ensures c in LeftCands(w, p) <==>
              exists i, j :: p < i < |w| && 0 <= j && j + 2 <= i && i - j <= MAX_CHAR_DISTANCE && c == MovedLeft(w, i, j)
    decreases |w| - p
  {
    if p + 1 < |w| {
      LeftCandsAre(w, p + 1, c);
      LeftRowAre(w, p + 1, LeftEnd(p + 1), c);
      assert LeftCands(w, p) == LeftCands(w, p + 1) + LeftRow(w, p + 1, LeftEnd(p + 1));
      if exists i, j :: p < i < |w| && 0 <= j && j + 2 <= i && i - j <= MAX_CHAR_DISTANCE && c == MovedLeft(w, i, j) {
        var i, j :| p < i < |w| && 0 <= j && j + 2 <= i && i - j <= MAX_CHAR_DISTANCE && c == MovedLeft(w, i, j);
        if i > p + 1 {
          assert c in LeftCands(w, p + 1);
        } else {
          assert LeftEnd(p + 1) < j;
          assert c in LeftRow(w, p + 1, LeftEnd(p + 1));
        }
      }
    }
  }

  /**
   * movechar offers exactly the moves of one character by 2 to 4 places,
   * first the rightward ones, then the leftward ones.
   */
  lemma MoveCandsAre(w: string, c: string)
    requires |w| >= 2
    ensures c in MoveCands(w) <==>
              || (exists i, j :: 0 <= i && i + 2 <= j < |w| && j - i <= MAX_CHAR_DISTANCE && c == MovedRight(w, i, j))
              || (exists i, j :: 0 <= j && j + 2 <= i < |w| && i - j <= MAX_CHAR_DISTANCE && c == MovedLeft(w, i, j))
  {
    RightCandsAre(w, |w| - 1, c);
    LeftCandsAre(w, 0, c);
  }

  /** One more step of the forward loop: the move to q is tried once it is by 2 or more. */
  lemma RightRowNext(r0: Sugs, w: string, p: nat, q: nat, cpd: int, check: Checker)
    requires p < q < |w|
    ensures Tried(r0, RightRow(w, p, q + 1), cpd, check) ==
      if q - p >= 2 then AfterTest(Tried(r0, RightRow(w, p, q), cpd, check), MovedRight(w, p, q), cpd, check)
      else Tried(r0, RightRow(w, p, q), cpd, check)
  {
    if q - p >= 2 {
      TriedSnoc(r0, RightRow(w, p, q), MovedRight(w, p, q), cpd, check);
    }
  }

  /** One more step of the backward loop. */
  lemma LeftRowNext(r0: Sugs, w: string, p: nat, q: nat, cpd: int, check: Checker)
    requires q < p < |w|
    ensures Tried(r0, LeftRow(w, p, q - 1), cpd, check) ==
      if p - q >= 2 then AfterTest(Tried(r0, LeftRow(w, p, q), cpd, check), MovedLeft(w, p, q), cpd, check)
      else Tried(r0, LeftRow(w, p, q), cpd, check)
  {
    if p - q >= 2 {
      TriedSnoc(r0, LeftRow(w, p, q), MovedLeft(w, p, q), cpd, check);
    }
  }

  /** The forward inner loop of movechar: the buffer carries the character at p rightwards. */
  method RightRowTest(sl: SugList, cand: array<char>, word: string, p: nat, cpd: int, check: Checker)
    requires cand.Length == |word| && p + 1 < |word|
    modifies sl, cand
    ensures sl.State() == Tried(old(sl.State()), RightRow(word, p, RightEnd(|word|, p)), cpd, check)
  {
    var n := |word|;
    forall k | 0 <= k < n {
      cand[k] := word[k];
    }
    ghost var r0 := sl.State();
    var q := p + 1;
    assert cand[..] == MovedRight(word, p, p);
    assert Tried(r0, RightRow(word, p, q), cpd, check) == r0;
    hide RightRow, Tried, AfterTest, MovedRight;
    while q < n && q - p <= MAX_CHAR_DISTANCE
      invariant p < q <= RightEnd(n, p)
      invariant cand[..] == MovedRight(word, p, q - 1)
      invariant sl.State() == Tried(r0, RightRow(word, p, q), cpd, check)
      decreases n - q
    {
      CarryRight(sl, cand, word, p, q, cpd, check);
      RightRowNext(r0, word, p, q, cpd, check);
      q := q + 1;
    }
  }

  /** The body of the forward loop: one exchange, and a test once the move is by 2 or more. */
  method CarryRight(sl: SugList, cand: array<char>, ghost word: string, p: nat, q: nat, cpd: int, check: Checker)
    requires p < q < |word| && cand[..] == MovedRight(word, p, q - 1)
    modifies sl, cand
    ensures cand[..] == MovedRight(word, p, q)
    ensures sl.State() == if q - p >= 2 then AfterTest(old(sl.State()), MovedRight(word, p, q), cpd, check) else old(sl.State())
  {
    MovedRightStep(word, p, q);
    var t := cand[q];
    cand[q] := cand[q - 1];
    cand[q - 1] := t;
    if q - p >= 2 {
      sl.TestSug(cand[..], cpd, check);
    }
  }

  /** The backward inner loop of movechar: the buffer carries the character at p leftwards. */
  method LeftRowTest(sl: SugList, cand: array<char>, word: string, p: nat, cpd: int, check: Checker)
    requires cand.Length == |word| && 1 <= p < |word|
    modifies sl, cand
    ensures sl.State() == Tried(old(sl.State()), LeftRow(word, p, LeftEnd(p)), cpd, check)
  {
    var n := |word|;
    forall k | 0 <= k < n {
      cand[k] := word[k];
    }
    ghost var r0 := sl.State();
    var q := p - 1;
    assert cand[..] == MovedLeft(word, p, p);
    assert Tried(r0, LeftRow(word, p, q), cpd, check) == r0;
    hide LeftRow, Tried, AfterTest, MovedLeft;
    while q >= 0 && p - q <= MAX_CHAR_DISTANCE
      invariant LeftEnd(p) <= q < p
      invariant cand[..] == MovedLeft(word, p, q + 1)
      invariant sl.State() == Tried(r0, LeftRow(word, p, q), cpd, check)
      decreases q
    {
      CarryLeft(sl, cand, word, p, q, cpd, check);
      LeftRowNext(r0, word, p, q, cpd, check);
      q := q - 1;
    }
  }

  /** The body of the backward loop. */
  method CarryLeft(sl: SugList, cand: array<char>, ghost word: string, p: nat, q: nat, cpd: int, check: Checker)
    requires q < p < |word| && cand[..] == MovedLeft(word, p, q + 1)
    modifies sl, cand
    ensures cand[..] == MovedLeft(word, p, q)
    ensures sl.State() == if p - q >= 2 then AfterTest(old(sl.State()), MovedLeft(word, p, q), cpd, check) else old(sl.State())
  {
    MovedLeftStep(word, p, q);
    var t := cand[q];
    cand[q] := cand[q + 1];
    cand[q + 1] := t;
    if p - q >= 2 {
      sl.TestSug(cand[..], cpd, check);
    }
  }

  /** movechar: every row starts again from a fresh copy of the word. */
  method MoveChar(sl: SugList, word: string, cpd: int, check: Checker)
    modifies sl
    ensures sl.State() == Tried(old(sl.State()), MoveCands(word), cpd, check)
  {
    var n := |word|;
    if n < 2 {
      return;
    }
    var cand := new char[n];
    ghost var s0 := sl.State();
    MoveRights(sl, cand, word, cpd, check);
    ghost var s1 := sl.State();
    MoveLefts(sl, cand, word, cpd, check);
    TriedAppend(s0, RightCands(word, n - 1), LeftCands(word, 0), cpd, check);
  }

  /** The first outer loop of movechar: p from the first position up. */
  method MoveRights(sl: SugList, cand: array<char>, word: string, cpd: int, check: Checker)
    requires cand.Length == |word| >= 2
    modifies sl, cand
    ensures sl.State() == Tried(old(sl.State()), RightCands(word, |word| - 1), cpd, check)
  {
    var n := |word|;
    ghost var s0 := sl.State();
    var p := 0;
    while p < n - 1
      invariant 0 <= p <= n - 1
      invariant sl.State() == Tried(s0, RightCands(word, p), cpd, check)
    {
      RightRowTest(sl, cand, word, p, cpd, check);
      TriedAppend(s0, RightCands(word, p), RightRow(word, p, RightEnd(n, p)), cpd, check);
      p := p + 1;
    }
  }

  /** The second outer loop of movechar: p from the last position down. */
  method MoveLefts(sl: SugList, cand: array<char>, word: string, cpd: int, check: Checker)
    requires cand.Length == |word| >= 2
    modifies sl, cand
    ensures sl.State() == Tried(old(sl.State()), LeftCands(word, 0), cpd, check)
  {
    var n := |word|;
    ghost var s1 := sl.State();
    var p := n - 1;
    while p >= 1
      invariant 0 <= p <= n - 1
      invariant sl.State() == Tried(s1, LeftCands(word, p), cpd, check)
    {
      LeftRowTest(sl, cand, word, p, cpd, check);
      TriedAppend(s1, LeftCands(word, p), LeftRow(word, p, LeftEnd(p)), cpd, check);
      p := p - 1;
    }
  }

  // ---------------------------------------------------------------------
  // forgotchar
  // ---------------------------------------------------------------------

  /** The word with c inserted before position i (i == |w| appends it). */
  function Inserted(w: string, i: nat, c: char): (r: string)
    requires i <= |w|
    ensures |r| == |w| + 1
  {
    seq(|w| + 1, k requires 0 <= k <= |w| => if k < i then w[k] else if k == i then c else w[k - 1])
  }

  /** An insertion is the word split at i with c between, and deleting it again gives the word back. */
  lemma InsertedAre(w: string, i: nat, c: char)
    requires i <= |w|
    ensures Inserted(w, i, c) == w[..i] + [c] + w[i..]
    ensures Removed(Inserted(w, i, c), i) == w
  {
  }

  /** The insertions of c from the end of the word to its start. */
  function InsertDown(w: string, c: char): seq<string>
  {
    seq(|w| + 1, k requires 0 <= k <= |w| => Inserted(w, |w| - k, c))
  }

  /** The insertions of c from the start of the word to its end. */
  function InsertUp(w: string, c: char): seq<string>
  {
    seq(|w| + 1, k requires 0 <= k <= |w| => Inserted(w, k, c))
  }

  /**
   * One turn of the outer loop of forgotchar: the insertions of ctry[k]
   * from the end backwards, then those of ctry[k + 1] (when there is one)
   * from the start forwards.
   */
  function ForgotTurnRows(w: string, ctry: string, k: nat): seq<string>
    requires k < |ctry|
  {
    InsertDown(w, ctry[k]) + (if k + 1 < |ctry| then InsertUp(w, ctry[k + 1]) else [])
  }

  /** The turns from the TRY character k on. */
  function ForgotFrom(w: string, ctry: string, k: nat): seq<string>
    decreases |ctry| - k
  {
    if k >= |ctry| then [] else ForgotTurnRows(w, ctry, k) + ForgotFrom(w, ctry, k + 2)
  }

  /** The candidates forgotchar offers. */
  function ForgotCands(w: string, ctry: string): seq<string>
  {
    ForgotFrom(w, ctry, 0)
  }

  /** Every candidate of forgotchar inserts one TRY character somewhere. */
  lemma {:induction false} ForgotFromOnly(w: string, ctry: string, k: nat, c: string) returns (j: nat, i: nat)
    requires c in ForgotFrom(w, ctry, k)
    ensures k <= j < |ctry| && i <= |w| && c == Inserted(w, i, ctry[j])
    decreases |ctry| - k
  {
    var down := InsertDown(w, ctry[k]);
    if c in down {
      var m :| 0 <= m < |down| && down[m] == c;
      j, i := k, |w| - m;
    } else if k + 1 < |ctry| && c in InsertUp(w, ctry[k + 1]) {
      var up := InsertUp(w, ctry[k + 1]);
      var m :| 0 <= m < |up| && up[m] == c;
      j, i := k + 1, m;
    } else {
      j, i := ForgotFromOnly(w, ctry, k + 2, c);
    }
  }

  /** forgotchar tries every TRY character at every position. */
  lemma {:induction false} ForgotFromAll(w: string, ctry: string, k: nat, j: nat, i: nat)
    requires k <= j < |ctry| && i <= |w|
    ensures Inserted(w, i, ctry[j]) in ForgotFrom(w, ctry, k)
    decreases |ctry| - k
  {
    if j == k {
      assert InsertDown(w, ctry[k])[|w| - i] == Inserted(w, i, ctry[j]);
    } else if j == k + 1 {
      assert InsertUp(w, ctry[k + 1])[i] == Inserted(w, i, ctry[j]);
    } else {
      ForgotFromAll(w, ctry, k + 2, j, i);
    }
  }

  /**
   * forgotchar offers exactly the insertions of one TRY character before
   * some letter or at the end.
   */
  lemma ForgotCandsAre(w: string, ctry: string, c: string)
    ensures c in ForgotCands(w, ctry) <==> exists j, i :: 0 <= j < |ctry| && 0 <= i <= |w| && c == Inserted(w, i, ctry[j])
  {
    if c in ForgotCands(w, ctry) {
      var j, i := ForgotFromOnly(w, ctry, 0, c);
    }
    if exists j, i :: 0 <= j < |ctry| && 0 <= i <= |w| && c == Inserted(w, i, ctry[j]) {
      var j, i :| 0 <= j < |ctry| && 0 <= i <= |w| && c == Inserted(w, i, ctry[j]);
      ForgotFromAll(w, ctry, 0, j, i);
    }
  }

  /** What a buffer cell holds once the character next to the gap has been copied into it. */
  lemma InsertedShift(w: string, i: nat, c: char)
    requires i <= |w|
    ensures 0 < i ==> Inserted(w, i, c)[i := w[i - 1]] == Inserted(w, i - 1, w[i - 1])
    ensures i < |w| ==> Inserted(w, i, c)[i := w[i]] == Inserted(w, i + 1, w[i])
  {
  }

  /** Writing c into the gap at i and offering the buffer. */
  method GapTest(sl: SugList, cand: array<char>, ghost word: string, i: nat, c: char, cpd: int, check: Checker)
    requires cand.Length == |word| + 1 && i <= |word| && cand[..] == Inserted(word, i, cand[i])
    modifies sl, cand
    ensures cand[..] == Inserted(word, i, c)
    ensures sl.State() == AfterTest(old(sl.State()), Inserted(word, i, c), cpd, check)
  {
    cand[i] := c;
    assert cand[..] == Inserted(word, i, cand[i])[i := c];
    sl.TestSug(cand[..], cpd, check);
  }

  /**
   * The backward row: c is written at i, offered, and the buffer gap moves
   * left by copying the character before it.
   */
  method InsertDownTest(sl: SugList, cand: array<char>, word: string, c: char, cpd: int, check: Checker)
    requires cand.Length == |word| + 1 && cand[..] == Inserted(word, |word|, cand[|word|])
    modifies sl, cand
    ensures cand[..] == Inserted(word, 0, c)
    ensures sl.State() == Tried(old(sl.State()), InsertDown(word, c), cpd, check)
  {
    var n := |word|;
    ghost var r0 := sl.State();
    ghost var row := InsertDown(word, c);
    var i := n;
    while true
      invariant 0 <= i <= n
      invariant cand[..] == Inserted(word, i, cand[i])
      invariant sl.State() == Tried(r0, row[..n - i], cpd, check)
      decreases i
    {
      GapTest(sl, cand, word, i, c, cpd, check);
      assert row[n - i] == Inserted(word, i, c);
      TriedSnoc(r0, row[..n - i], row[n - i], cpd, check);
      assert row[..n - i] + [row[n - i]] == row[..n - i + 1];
      if i == 0 {
        assert row[..n + 1] == row;
        break;
      }
      InsertedShift(word, i, c);
      cand[i] := cand[i - 1];
      i := i - 1;
    }
  }

  /** The forward row: the gap moves right by copying the character after it. */
  method InsertUpTest(sl: SugList, cand: array<char>, word: string, c: char, cpd: int, check: Checker)
    requires cand.Length == |word| + 1 && cand[..] == Inserted(word, 0, cand[0])
    modifies sl, cand
    ensures cand[..] == Inserted(word, |word|, c)
    ensures sl.State() == Tried(old(sl.State()), InsertUp(word, c), cpd, check)
  {
    var n := |word|;
    ghost var r0 := sl.State();
    ghost var row := InsertUp(word, c);
    var i := 0;
    while true
      invariant 0 <= i <= n
      invariant cand[..] == Inserted(word, i, cand[i])
      invariant sl.State() == Tried(r0, row[..i], cpd, check)
      decreases n - i
    {
      GapTest(sl, cand, word, i, c, cpd, check);
      assert row[i] == Inserted(word, i, c);
      TriedSnoc(r0, row[..i], row[i], cpd, check);
      assert row[..i] + [row[i]] == row[..i + 1];
      if i == n {
        assert row[..n + 1] == row;
        break;
      }
      InsertedShift(word, i, c);
      cand[i] := cand[i + 1];
      i := i + 1;
    }
  }

  /**
   * forgotchar(word) with the TRY string ctry: the outer loop advances k
   * twice per turn, once for the backward row and once for the forward one.
   */
  method ForgotChar(sl: SugList, word: string, ctry: string, cpd: int, check: Checker)
    modifies sl
    ensures sl.State() == Tried(old(sl.State()), ForgotCands(word, ctry), cpd, check)
  {
    var n := |word|;
    var cand := new char[n + 1];
    forall j | 0 <= j < n {
      cand[j] := word[j];
    }
    assert cand[..] == Inserted(word, n, cand[n]);
    ghost var goal := Tried(sl.State(), ForgotCands(word, ctry), cpd, check);
    var k := 0;
    while k < |ctry|
      invariant cand.Length == n + 1
      invariant k < |ctry| ==> cand[..] == Inserted(word, n, cand[n])
      invariant Tried(sl.State(), ForgotFrom(word, ctry, k), cpd, check) == goal
      decreases |ctry| - k
    {
      ghost var s1 := sl.State();
      ForgotTurn(sl, cand, word, ctry, k, cpd, check);
      TriedAppend(s1, ForgotTurnRows(word, ctry, k), ForgotFrom(word, ctry, k + 2), cpd, check);
      k := k + 2;
    }
  }

  /** One turn of the outer loop: the backward row of k, then the forward row of k + 1. */
  method ForgotTurn(sl: SugList, cand: array<char>, word: string, ctry: string, k: nat, cpd: int, check: Checker)
    requires k < |ctry|
    requires cand.Length == |word| + 1 && cand[..] == Inserted(word, |word|, cand[|word|])
    modifies sl, cand
    ensures k + 2 < |ctry| ==> cand[..] == Inserted(word, |word|, cand[|word|])
    ensures sl.State() == Tried(old(sl.State()), ForgotTurnRows(word, ctry, k), cpd, check)
  {
    ghost var s0 := sl.State();
    InsertDownTest(sl, cand, word, ctry[k], cpd, check);
    if k + 1 >= |ctry| {
      assert InsertDown(word, ctry[k]) + [] == InsertDown(word, ctry[k]);
      return;
    }
    InsertUpTest(sl, cand, word, ctry[k + 1], cpd, check);
    TriedAppend(s0, InsertDown(word, ctry[k]), InsertUp(word, ctry[k + 1]), cpd, check);
  }

  // ---------------------------------------------------------------------
  // doubletwochars
  // ---------------------------------------------------------------------

  /** The word without its characters at i - 1 and i. */
  function Cut(w: string, i: nat): (r: string)
    requires 1 <= i < |w|
    ensures |r| == |w| - 2
  {
    w[..i - 1] + w[i + 1..]
  }

  /**
   * The state machine of doubletwochars from position i, `state` counting
   * the positions j before i with w[j] == w[j - 2] in a row.
   */
  function DoubleFrom(w: string, i: nat, state: nat): seq<string>
    requires 2 <= i
    decreases |w| - i
  {
    if i >= |w| then []
    else if w[i] == w[i - 2] then
      if state + 1 == 3 || (state + 1 == 2 && i >= 4) then [Cut(w, i)] + DoubleFrom(w, i + 1, 0)
      else DoubleFrom(w, i + 1, state + 1)
    else DoubleFrom(w, i + 1, 0)
  }

  /** The candidates doubletwochars offers. */
  function DoubleCands(w: string): seq<string>
  {
    if |w| < 5 then [] else DoubleFrom(w, 2, 0)
  }

  /** The last `state` positions before i repeat the character two places back. */
  predicate Repeating(w: string, i: nat, state: nat)
  {
    2 <= i <= |w| && state + 2 <= i && forall j :: i - state <= j < i ==> w[j] == w[j - 2]
  }

  lemma {:induction false} DoubleFromSound(w: string, i: nat, state: nat, c: string)
    requires Repeating(w, i, state) && c in DoubleFrom(w, i, state)
    ensures exists j :: 3 <= j < |w| && w[j - 3] == w[j - 1] && w[j - 2] == w[j] && c == Cut(w, j)
    decreases |w| - i
  {
    if w[i] == w[i - 2] {
      if state + 1 == 3 || (state + 1 == 2 && i >= 4) {
        if c == Cut(w, i) {
          assert w[i - 1] == w[i - 3];
        } else {
          DoubleFromSound(w, i + 1, 0, c);
        }
      } else {
        DoubleFromSound(w, i + 1, state + 1, c);
      }
    } else {
      DoubleFromSound(w, i + 1, 0, c);
    }
  }

  /**
   * doubletwochars offers nothing for words shorter than 5, and otherwise
   * only the word with one copy of a doubled pair ("vacacation" without
   * the second "ca"): every candidate is 2 characters shorter.
   */
  lemma DoubleCandsAre(w: string, c: string)
    requires c in DoubleCands(w)
    ensures |w| >= 5 && |c| == |w| - 2
    ensures exists j :: 3 <= j < |w| && w[j - 3] == w[j - 1] && w[j - 2] == w[j] && c == Cut(w, j)
  {
    DoubleFromSound(w, 2, 0, c);
  }

  /** doubletwochars: the candidate is copied into the buffer around the doubled pair. */
  method DoubleTwoChars(sl: SugList, word: string, cpd: int, check: Checker)
    modifies sl
    ensures sl.State() == Tried(old(sl.State()), DoubleCands(word), cpd, check)
  {
    var wl := |word|;
    if wl < 5 {
      return;
    }
    var buf := new char[wl - 2];
    ghost var goal := Tried(sl.State(), DoubleCands(word), cpd, check);
    var state := 0;
    var i := 2;
    while i < wl
      invariant 2 <= i <= wl
      invariant Tried(sl.State(), DoubleFrom(word, i, state), cpd, check) == goal
      decreases wl - i
    {
      if word[i] == word[i - 2] {
        state := state + 1;
        if state == 3 || (state == 2 && i >= 4) {
          forall k | 0 <= k < i - 1 {
            buf[k] := word[k];
          }
          forall k | i - 1 <= k < wl - 2 {
            buf[k] := word[k + 2];
          }
          assert buf[..] == Cut(word, i);
          ghost var rest := DoubleFrom(word, i + 1, 0);
          assert ([Cut(word, i)] + rest)[0] == Cut(word, i) && ([Cut(word, i)] + rest)[1..] == rest;
          sl.TestSug(buf[..], cpd, check);
          state := 0;
        }
      } else {
        state := 0;
      }
      i := i + 1;
    }
  }

  // ---------------------------------------------------------------------
  // twowords
  // ---------------------------------------------------------------------

  /** The list and the bits together with the `good` flag twowords threads through. */
  datatype TwoState = TwoState(s: Sugs, good: bool)

  /**
   * A dictionary word pair found with the separator at its place: the best
   * kind of suggestion, which goes first and clears the list of everything
   * that was not a word pair.
   */
  function PairTried(st: TwoState, cand: string, check: Checker): TwoState
  {
    if check(cand) == 0 then st
    else TwoState(Sugs([cand] + (if st.good then st.s.list else []), st.s.info + {BestSug}), true)
  }

  /**
   * Both halves are words: the spaced split goes to the end of the list when
   * it is new and there is room, then the dashed one when `dashToo` and the
   * spaced one was new.
   */
  function SplitTried(l: seq<string>, sp: string, da: string, dashToo: bool): seq<string>
  {
    var cwrd := sp !in l;
    var l1 := if cwrd && |l| < MAX_SUG then l + [sp] else l;
    if dashToo && cwrd && da !in l1 && |l1| < MAX_SUG then l1 + [da] else l1
  }

  /** One split point p of twowords, for a language that is not Hungarian. */
  function TwoStep(w: string, p: nat, st: TwoState, cpd: int, check: Checker, dash: bool, nosplit: bool): TwoState
    requires 1 <= p < |w|
  {
    var sp := Inserted(w, p, ' ');
    var da := Inserted(w, p, '-');
    var st1 := if cpd == 0 then PairTried(st, sp, check) else st;
    var st2 := if dash && cpd == 0 then PairTried(st1, da, check) else st1;
    if |st2.s.list| < MAX_SUG && !nosplit && !st2.good && check(w[..p]) != 0 && check(w[p..]) != 0 then
      TwoState(Sugs(SplitTried(st2.s.list, sp, da, !nosplit && dash && |w| - p > 1 && p > 1), st2.s.info), st2.good)
    else st2
  }

  /** The split points from p on. */
  function TwoFrom(w: string, p: nat, st: TwoState, cpd: int, check: Checker, dash: bool, nosplit: bool): TwoState
    requires 1 <= p
    decreases |w| - p
  {
    if p >= |w| then st else TwoFrom(w, p + 1, TwoStep(w, p, st, cpd, check, dash, nosplit), cpd, check, dash, nosplit)
  }

  /**
   * twowords as written: a word shorter than 3 characters makes it return
   * false, whatever `good` was.
   */
  function TwoWordsAsWritten(w: string, st: TwoState, cpd: int, check: Checker, dash: bool, nosplit: bool): TwoState
  {
    if |w| < 3 then TwoState(st.s, false) else TwoFrom(w, 1, st, cpd, check, dash, nosplit)
  }

  /**
   * For the two-letter word "ok" after a good suggestion twowords as
   * written reports that there was none.
   */
  lemma TwoWordsAsWrittenDropsGood(s: Sugs, cpd: int, check: Checker, dash: bool, nosplit: bool)
    ensures !TwoWordsAsWritten("ok", TwoState(s, true), cpd, check, dash, nosplit).good
  {
  }

  /**
   * twowords as its comment describes it: true when there is a dictionary
   * word pair or there was a good suggestion before the call.
   */
  function TwoWordsSpec(w: string, st: TwoState, cpd: int, check: Checker, dash: bool, nosplit: bool): TwoState
  {
    if |w| < 3 then st else TwoFrom(w, 1, st, cpd, check, dash, nosplit)
  }

  /** A word pair with the separator at q that the dictionary accepts. */
  predicate PairAt(w: string, q: nat, cpd: int, check: Checker, dash: bool)
  {
    && 1 <= q < |w| && cpd == 0
    && (check(Inserted(w, q, ' ')) != 0 || (dash && check(Inserted(w, q, '-')) != 0))
  }

  /** A best suggestion: an accepted dictionary word pair. */
  predicate Pair(w: string, c: string, cpd: int, check: Checker, dash: bool)
  {
    && cpd == 0 && check(c) != 0
    && exists q :: 1 <= q < |w| && (c == Inserted(w, q, ' ') || (dash && c == Inserted(w, q, '-')))
  }

  /** A split of the word into two dictionary words, spaced or dashed. */
  predicate Split(w: string, c: string, check: Checker)
  {
    exists q :: 1 <= q < |w| && check(w[..q]) != 0 && check(w[q..]) != 0 && (c == Inserted(w, q, ' ') || c == Inserted(w, q, '-'))
  }

  /** Some split point from p on gives an accepted word pair. */
  predicate AnyPairFrom(w: string, p: nat, cpd: int, check: Checker, dash: bool)
    decreases |w| - p
  {
    p < |w| && (PairAt(w, p, cpd, check, dash) || AnyPairFrom(w, p + 1, cpd, check, dash))
  }

  lemma {:induction false} AnyPairFromIs(w: string, p: nat, cpd: int, check: Checker, dash: bool)
    ensures AnyPairFrom(w, p, cpd, check, dash) <==> exists q :: p <= q && PairAt(w, q, cpd, check, dash)
    decreases |w| - p
  {
    if p < |w| {
      AnyPairFromIs(w, p + 1, cpd, check, dash);
      if exists q :: p <= q && PairAt(w, q, cpd, check, dash) {
        var q :| p <= q && PairAt(w, q, cpd, check, dash);
        assert q == p || p + 1 <= q;
      }
    } else {
      assert forall q :: p <= q ==> !PairAt(w, q, cpd, check, dash);
    }
  }

  /** One split point makes the state good, and sets BEST_SUG, exactly on a word pair. */
  lemma TwoStepGood(w: string, p: nat, st: TwoState, cpd: int, check: Checker, dash: bool, nosplit: bool)
    requires 1 <= p < |w|
    ensures var t := TwoStep(w, p, st, cpd, check, dash, nosplit);
            && (t.good <==> st.good || PairAt(w, p, cpd, check, dash))
            && t.s.info == if PairAt(w, p, cpd, check, dash) then st.s.info + {BestSug} else st.s.info
  {
    var sp := Inserted(w, p, ' ');
    var da := Inserted(w, p, '-');
    var st1 := if cpd == 0 then PairTried(st, sp, check) else st;
    var st2 := if dash && cpd == 0 then PairTried(st1, da, check) else st1;
    var t := TwoStep(w, p, st, cpd, check, dash, nosplit);
    assert t.good == st2.good && t.s.info == st2.s.info;
    if cpd != 0 {
      assert st2 == st;
    } else if !dash {
      assert st2 == PairTried(st, sp, check);
    } else if check(sp) == 0 {
      assert st2 == PairTried(st, da, check);
    } else {
      assert st1.s.info == st.s.info + {BestSug} && st1.good;
      if check(da) != 0 {
        assert st2.s.info == st1.s.info + {BestSug};
      } else {
        assert st2 == st1;
      }
    }
  }

  /**
   * The result is good exactly when it was good already or some split
   * point gives an accepted word pair; BEST_SUG is set exactly in the
   * latter case.
   */
  lemma {:induction false} TwoFromGood(w: string, p: nat, st: TwoState, cpd: int, check: Checker, dash: bool, nosplit: bool)
    requires 1 <= p
    ensures var r := TwoFrom(w, p, st, cpd, check, dash, nosplit);
            && (r.good <==> st.good || AnyPairFrom(w, p, cpd, check, dash))
            && r.s.info == if AnyPairFrom(w, p, cpd, check, dash) then st.s.info + {BestSug} else st.s.info
    decreases |w| - p
  {
    if p < |w| {
      var t := TwoStep(w, p, st, cpd, check, dash, nosplit);
      TwoStepGood(w, p, st, cpd, check, dash, nosplit);
      TwoFromGood(w, p + 1, t, cpd, check, dash, nosplit);
    }
  }

  /**
   * Once twowords has found a word pair the list holds word pairs only:
   * what was collected before is dropped.
   */
  lemma {:induction false} TwoFromPairsOnly(w: string, p: nat, st: TwoState, cpd: int, check: Checker, dash: bool, nosplit: bool)
    requires 1 <= p
    requires st.good ==> forall c :: c in st.s.list ==> Pair(w, c, cpd, check, dash)
    ensures var r := TwoFrom(w, p, st, cpd, check, dash, nosplit);
            r.good ==> forall c :: c in r.s.list ==> Pair(w, c, cpd, check, dash)
    decreases |w| - p
  {
    if p < |w| {
      var sp := Inserted(w, p, ' ');
      var da := Inserted(w, p, '-');
      var st1 := if cpd == 0 then PairTried(st, sp, check) else st;
      if cpd == 0 && check(sp) != 0 {
        assert Pair(w, sp, cpd, check, dash);
      }
      assert st1.good ==> forall c :: c in st1.s.list ==> Pair(w, c, cpd, check, dash);
      var st2 := if dash && cpd == 0 then PairTried(st1, da, check) else st1;
      if dash && cpd == 0 && check(da) != 0 {
        assert Pair(w, da, cpd, check, dash);
      }
      assert st2.good ==> forall c :: c in st2.s.list ==> Pair(w, c, cpd, check, dash);
      TwoFromPairsOnly(w, p + 1, TwoStep(w, p, st, cpd, check, dash, nosplit), cpd, check, dash, nosplit);
    }
  }

  /**
   * twowords adds only accepted word pairs and splits into two dictionary
   * words, and splits only while nosplitsugs is off.
   */
  lemma {:induction false} TwoFromOnly(w: string, p: nat, st: TwoState, base: seq<string>, cpd: int, check: Checker, dash: bool, nosplit: bool)
    requires 1 <= p
    requires forall c :: c in st.s.list ==> c in base || Pair(w, c, cpd, check, dash) || (!nosplit && Split(w, c, check))
    ensures var r := TwoFrom(w, p, st, cpd, check, dash, nosplit);
            forall c :: c in r.s.list ==> c in base || Pair(w, c, cpd, check, dash) || (!nosplit && Split(w, c, check))
    decreases |w| - p
  {
    if p < |w| {
      var sp := Inserted(w, p, ' ');
      var da := Inserted(w, p, '-');
      assert cpd == 0 && check(sp) != 0 ==> Pair(w, sp, cpd, check, dash);
      assert dash && cpd == 0 && check(da) != 0 ==> Pair(w, da, cpd, check, dash);
      if check(w[..p]) != 0 && check(w[p..]) != 0 {
        assert Split(w, sp, check) && Split(w, da, check);
      }
      TwoFromOnly(w, p + 1, TwoStep(w, p, st, cpd, check, dash, nosplit), base, cpd, check, dash, nosplit);
    }
  }

  /**
   * twowords returns true exactly when `good` was true or, for a word of
   * at least 3 characters, some split gives an accepted word pair; in
   * particular good stays good.
   */
  lemma TwoWordsGood(w: string, st: TwoState, cpd: int, check: Checker, dash: bool, nosplit: bool)
    ensures var r := TwoWordsSpec(w, st, cpd, check, dash, nosplit);
            && (r.good <==> st.good || (|w| >= 3 && exists q :: PairAt(w, q, cpd, check, dash)))
            && ((BestSug in r.s.info) <==> (BestSug in st.s.info) || (|w| >= 3 && exists q :: PairAt(w, q, cpd, check, dash)))
  {
    if |w| >= 3 {
      TwoFromGood(w, 1, st, cpd, check, dash, nosplit);
      AnyPairFromIs(w, 1, cpd, check, dash);
      if exists q :: PairAt(w, q, cpd, check, dash) {
        var q :| PairAt(w, q, cpd, check, dash);
        assert 1 <= q;
      }
    }
  }

  /** The pieces the splitting loop reads from a buffer with its gap at p. */
  lemma InsertedSlices(w: string, i: nat, c: char)
    requires i <= |w|
    ensures Inserted(w, i, c)[..i] == w[..i] && Inserted(w, i, c)[i + 1..] == w[i..]
  {
  }

  /** A word pair with separator sep at p, offered as a best suggestion. */
  method PairTest(sl: SugList, cand: array<char>, ghost word: string, p: nat, sep: char, good: bool, check: Checker)
    returns (good': bool)
    requires cand.Length == |word| + 1 && p <= |word| && cand[..] == Inserted(word, p, cand[p])
    modifies sl, cand
    ensures cand[..] == Inserted(word, p, sep)
    ensures TwoState(sl.State(), good') == PairTried(TwoState(old(sl.State()), good), Inserted(word, p, sep), check)
  {
    cand[p] := sep;
    assert cand[..] == Inserted(word, p, cand[p])[p := sep];
    var c := cand[..];
    good' := good;
    if check(c) != 0 {
      sl.info := sl.info + {BestSug};
      if !good' {
        good' := true;
        sl.list := [];
      }
      sl.list := [c] + sl.list;
    }
  }

  /** The two words at p: the spaced form, then (when dashToo) the dashed one. */
  method SplitTest(sl: SugList, cand: array<char>, ghost word: string, p: nat, dashToo: bool)
    requires cand.Length == |word| + 1 && p <= |word| && cand[..] == Inserted(word, p, cand[p])
    modifies sl, cand
    ensures cand[..] == Inserted(word, p, cand[p])
    ensures sl.State() == Sugs(SplitTried(old(sl.list), Inserted(word, p, ' '), Inserted(word, p, '-'), dashToo), old(sl.info))
  {
    cand[p] := ' ';
    assert cand[..] == Inserted(word, p, cand[p])[p := ' '];
    var c := cand[..];
    assert c == Inserted(word, p, ' ');
    var cwrd := c !in sl.list;
    if cwrd && |sl.list| < MAX_SUG {
      sl.list := sl.list + [c];
    }
    ghost var l1 := sl.list;
    assert l1 == if cwrd && |old(sl.list)| < MAX_SUG then old(sl.list) + [Inserted(word, p, ' ')] else old(sl.list);
    if dashToo {
      cand[p] := '-';
      assert cand[..] == Inserted(word, p, ' ')[p := '-'];
      c := cand[..];
      assert c == Inserted(word, p, '-');
      if c in sl.list {
        cwrd := false;
      }
      if |sl.list| < MAX_SUG && cwrd {
        sl.list := sl.list + [c];
      }
    }
  }

  /** One pass of the splitting loop: the gap moves to p and the forms at p are tried. */
  method TwoStepTest(sl: SugList, cand: array<char>, word: string, p: nat, good: bool, cpd: int, check: Checker, dash: bool, nosplit: bool)
    returns (good': bool)
    requires cand.Length == |word| + 1 && 1 <= p < |word| && cand[..] == Inserted(word, p - 1, cand[p - 1])
    modifies sl, cand
    ensures cand[..] == Inserted(word, p, cand[p])
    ensures TwoState(sl.State(), good') == TwoStep(word, p, TwoState(old(sl.State()), good), cpd, check, dash, nosplit)
  {
    cand[p - 1] := cand[p];
    InsertedShift(word, p - 1, old(cand[p - 1]));
    good' := good;
    if cpd == 0 {
      good' := PairTest(sl, cand, word, p, ' ', good', check);
    }
    if dash && cpd == 0 {
      good' := PairTest(sl, cand, word, p, '-', good', check);
    }
    if |sl.list| < MAX_SUG && !nosplit && !good' {
      InsertedSlices(word, p, cand[p]);
      var c1 := check(cand[..p]);
      if c1 != 0 {
        var c2 := check(cand[p + 1..]);
        if c2 != 0 {
          SplitTest(sl, cand, word, p, !nosplit && dash && |word| - p > 1 && p > 1);
        }
      }
    }
  }

  /**
   * twowords(word, cpdsuggest, good): the buffer holds the word with a gap
   * that moves right one place per split point. Returns the new `good`.
   */
  method TwoWords(sl: SugList, word: string, cpd: int, good: bool, check: Checker, dash: bool, nosplit: bool)
    returns (r: bool)
    modifies sl
    ensures TwoState(sl.State(), r) == TwoWordsSpec(word, TwoState(old(sl.State()), good), cpd, check, dash, nosplit)
  {
    var wl := |word|;
    if wl < 3 {
      return good;
    }
    var cand := new char[wl + 1];
    forall k | 0 <= k < wl {
      cand[k + 1] := word[k];
    }
    assert cand[..] == Inserted(word, 0, cand[0]);
    ghost var goal := TwoWordsSpec(word, TwoState(sl.State(), good), cpd, check, dash, nosplit);
    r := good;
    var p := 1;
    while p < wl
      invariant 1 <= p <= wl
      invariant cand.Length == wl + 1 && cand[..] == Inserted(word, p - 1, cand[p - 1])
      invariant TwoFrom(word, p, TwoState(sl.State(), r), cpd, check, dash, nosplit) == goal
      decreases wl - p
    {
      r := TwoStepTest(sl, cand, word, p, r, cpd, check, dash, nosplit);
      p := p + 1;
    }
  }
}
