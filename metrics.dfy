/**
 * The string metrics of the suggestion ranking (SuggestMgr.cs): the n-gram
 * score, the left common substring, the common character positions with
 * the transposition test, and the longest common subsequence.
 */
module SuggestMetrics {
  import opened Base
  import opened Locale

  function Max(a: int, b: int): int
  {
    if a >= b then a else b
  }

  function Abs(a: int): int
  {
    if a < 0 then -a else a
  }

  // ---------------------------------------------------------------------
  // ngram

  /** The bits of ngram's opt mask: NGRAM_LONGER_WORSE (1), NGRAM_ANY_MISMATCH (2), NGRAM_LOWERING (4), NGRAM_WEIGHTED (8). */
  datatype NgramOpt = NgramOpt(longerWorse: bool, anyMismatch: bool, lowering: bool, weighted: bool)

  /**
   * String.IndexOf(c, start, count): the first position in
   * [start, start + count) holding c, or -1.
   */
  function IndexIn(s: seq<char>, c: char, start: nat, count: nat): (r: int)
    requires start + count <= |s|
    ensures r == -1 || (start <= r < start + count && s[r] == c)
    ensures forall p :: start <= p < (if r == -1 then start + count else r) ==> s[p] != c
    decreases count
  {
    if count == 0 then -1
    else if s[start] == c then start
    else IndexIn(s, c, start + 1, count - 1)
  }

  /** The j characters of s1 from i occur in s2 at p. */
  predicate GramAt(s1: seq<char>, i: nat, j: nat, s2: seq<char>, p: int)
  {
    i + j <= |s1| && OccursAt(s1[i..i + j], s2, p)
  }

  /** The j characters of s1 from i occur somewhere in s2. */
  ghost predicate GramHit(s1: seq<char>, i: nat, j: nat, s2: seq<char>)
  {
    exists p :: GramAt(s1, i, j, s2, p)
  }

  /** What the gram at i adds to its level: 1 when it occurs, and with weighting -1 when not, -2 at either end. */
  ghost function GramScore(s1: seq<char>, s2: seq<char>, i: nat, j: nat, weighted: bool): int
    requires i + j <= |s1|
  {
    if GramHit(s1, i, j, s2) then 1
    else if weighted then (if i == 0 || i == |s1| - j then -2 else -1)
    else 0
  }

  /** The scores of the j-grams starting below k. */
  ghost function Level(s1: seq<char>, s2: seq<char>, j: nat, weighted: bool, k: nat): int
    requires k + j <= |s1| + 1
  {
    if k == 0 then 0 else Level(s1, s2, j, weighted, k - 1) + GramScore(s1, s2, k - 1, j, weighted)
  }

  /** The score of level j: all j-grams of s1. */
  ghost function LevelScore(s1: seq<char>, s2: seq<char>, j: nat, weighted: bool): int
  {
    if j > |s1| then 0 else Level(s1, s2, j, weighted, |s1| - j + 1)
  }

  /** The levels j..n, stopping after the first one below 2 when not weighted. */
  ghost function Levels(s1: seq<char>, s2: seq<char>, n: int, j: nat, weighted: bool): int
    decreases n - j + 1
  {
    if j > n then 0
    else
      var ns := LevelScore(s1, s2, j, weighted);
      if ns < 2 && !weighted then ns else ns + Levels(s1, s2, n, j + 1, weighted)
  }

  /** The length penalty: l2 - l1 - 2 with NGRAM_LONGER_WORSE, else |l2 - l1| - 2 with NGRAM_ANY_MISMATCH. */
  function Penalty(l1: int, l2: int, opt: NgramOpt): int
  {
    if opt.longerWorse then (l2 - l1) - 2
    else if opt.anyMismatch then Abs(l2 - l1) - 2
    else 0
  }

  /**
   * The n-gram score of s1 against s2: 0 against an empty s2; otherwise, with
   * s2 lowered under NGRAM_LOWERING, the levels 1..n less a positive
   * length penalty.
   */
  ghost function NgramScore(ci: Casing, n: int, s1: seq<char>, s2: seq<char>, opt: NgramOpt): int
  {
    if |s2| == 0 then 0
    else
      var t := if opt.lowering then LowerCase(ci, s2) else s2;
      Levels(s1, t, n, 1, opt.weighted) - Max(Penalty(|s1|, |s2|, opt), 0)
  }

  /** A gram occurs only where its first character does. */
  lemma FirstChar(s1: seq<char>, i: nat, j: nat, s2: seq<char>, p: int)
    requires 1 <= j && i + j <= |s1| && 0 <= p && p + j <= |s2| && s2[p] != s1[i]
    ensures !GramAt(s1, i, j, s2, p)
  {
    assert s2[p..p + j][0] == s2[p] && s1[i..i + j][0] == s1[i];
  }

  /** A one-character gram occurs exactly where its character does. */
  lemma GramOne(s1: seq<char>, i: nat, s2: seq<char>, q: int)
    requires i + 1 <= |s1| && -1 <= q < |s2|
    requires q >= 0 ==> s2[q] == s1[i]
    requires q < 0 ==> forall p :: 0 <= p < |s2| ==> s2[p] != s1[i]
    ensures GramHit(s1, i, 1, s2) <==> q >= 0
  {
    if q >= 0 {
      assert GramAt(s1, i, 1, s2, q);
    } else {
      forall p ensures !GramAt(s1, i, 1, s2, p) {
        if 0 <= p < |s2| {
          FirstChar(s1, i, 1, s2, p);
        }
      }
    }
  }

  /** No gram starts before l, nor where the next search finds nothing; so it does not occur. */
  lemma NoGram(s1: seq<char>, i: nat, j: nat, s2: seq<char>, l: nat)
    requires i + j <= |s1| && 1 <= j <= |s2| && l <= |s2| - j + 1
    requires forall p :: 0 <= p < l ==> !GramAt(s1, i, j, s2, p)
    requires forall p :: l <= p < |s2| - j + 1 ==> s2[p] != s1[i]
    ensures !GramHit(s1, i, j, s2)
  {
    forall p ensures !GramAt(s1, i, j, s2, p) {
      if l <= p && p + j <= |s2| {
        FirstChar(s1, i, j, s2, p);
      }
    }
  }

  /** The candidate at q, whose first character matches, is an occurrence exactly when the rest agrees. */
  lemma GramRest(s1: seq<char>, i: nat, j: nat, s2: seq<char>, q: nat)
    requires i + j <= |s1| && 2 <= j && q + j <= |s2| && s2[q] == s1[i]
    ensures GramAt(s1, i, j, s2, q) <==> s1[i + 1..i + j] == s2[q + 1..q + j]
  {
    assert s1[i..i + j] == [s1[i]] + s1[i + 1..i + j];
    assert s2[q..q + j] == [s2[q]] + s2[q + 1..q + j];
  }

  /** One round of the search loop: the positions l..q hold no occurrence when the one at q fails. */
  lemma NoGramUpTo(s1: seq<char>, i: nat, j: nat, s2: seq<char>, l: nat, q: nat)
    requires 1 <= j && i + j <= |s1| && l <= q && q + j <= |s2|
    requires forall p :: 0 <= p < l ==> !GramAt(s1, i, j, s2, p)
    requires forall p :: l <= p < q ==> s2[p] != s1[i]
    requires !GramAt(s1, i, j, s2, q)
    ensures forall p :: 0 <= p < q + 1 ==> !GramAt(s1, i, j, s2, p)
  {
    forall p | l <= p < q
      ensures !GramAt(s1, i, j, s2, p)
    {
      FirstChar(s1, i, j, s2, p);
    }
  }

  /**
   * The search of ngram's inner loop: the first character of the gram by
   * IndexOf, the rest by an ordinal comparison, repeated after each
   * position that does not match; a gram longer than s2 is not searched.
   */
  method GramFound(s1: seq<char>, s2: seq<char>, i: nat, j: nat) returns (found: bool)
    requires 1 <= j && i + j <= |s1|
    ensures found <==> GramHit(s1, i, j, s2)
  {
    var l2 := |s2|;
    if j == 1 {
      var q := IndexIn(s2, s1[i], 0, l2);
      GramOne(s1, i, s2, q);
      return q + 1 > 0;
    }
    if j > l2 {
      return false;
    }
    var l := 0;
    while true
      invariant l <= l2 - j + 1
      invariant forall p :: 0 <= p < l ==> !GramAt(s1, i, j, s2, p)
      decreases l2 - j + 1 - l
    {
      var q := IndexIn(s2, s1[i], l, l2 - j - l + 1);
      if q < 0 {
        NoGram(s1, i, j, s2, l);
        return false;
      }
      GramRest(s1, i, j, s2, q);
      if s1[i + 1..i + j] == s2[q + 1..q + j] {
        return true;
      }
      NoGramUpTo(s1, i, j, s2, l, q);
      l := q + 1;
    }
  }

  /** One level of ngram: the inner loop over the j-grams of s1. */
  method LevelCount(s1: seq<char>, s2: seq<char>, j: nat, weighted: bool) returns (ns: int)
    requires 1 <= j
    ensures ns == LevelScore(s1, s2, j, weighted)
  {
    ns := 0;
    var l1 := |s1|;
    if j > l1 {
      return;
    }
    var i := 0;
    while i <= l1 - j
      invariant 0 <= i <= l1 - j + 1
      invariant ns == Level(s1, s2, j, weighted, i)
    {
      var found := GramFound(s1, s2, i, j);
      if found {
        ns := ns + 1;
      } else if weighted {
        ns := ns - 1;
        if i == 0 || i == l1 - j {
          ns := ns - 1;
        }
      }
      i := i + 1;
    }
  }

  /** ngram(n, s1, s2, opt). */
  method Ngram(ci: Casing, n: int, s1: seq<char>, s2in: seq<char>, opt: NgramOpt) returns (r: int)
    ensures r == NgramScore(ci, n, s1, s2in, opt)
  {
    var l2 := |s2in|;
    if l2 == 0 {
      return 0;
    }
    var s2 := if opt.lowering then LowerCase(ci, s2in) else s2in;
    var l1 := |s1|;
    var nscore := 0;
    var j := 1;
    while j <= n
      invariant 1 <= j
      invariant nscore + Levels(s1, s2, n, j, opt.weighted) == Levels(s1, s2, n, 1, opt.weighted)
      decreases n - j + 1
    {
      var ns := LevelCount(s1, s2, j, opt.weighted);
      nscore := nscore + ns;
      if ns < 2 && !opt.weighted {
        break;
      }
      j := j + 1;
    }
    var pen := Penalty(l1, l2, opt);
    r := nscore - (if pen > 0 then pen else 0);
  }

  /** Every gram of a word occurs in the word itself: a level of a word against itself counts all its grams. */
  lemma {:induction false} SelfLevel(s: seq<char>, j: nat, weighted: bool, k: nat)
    requires 1 <= j && k + j <= |s| + 1
    ensures Level(s, s, j, weighted, k) == k
    decreases k
  {
    if k > 0 {
      SelfLevel(s, j, weighted, k - 1);
      assert GramAt(s, k - 1, j, s, k - 1);
    }
  }

  /** Unweighted, a level counts some of the grams: between 0 and their number. */
  lemma {:induction false} LevelBounds(s1: seq<char>, s2: seq<char>, j: nat, k: nat)
    requires k + j <= |s1| + 1
    ensures 0 <= Level(s1, s2, j, false, k) <= k
    decreases k
  {
    if k > 0 {
      LevelBounds(s1, s2, j, k - 1);
    }
  }

  // ---------------------------------------------------------------------
  // leftcommonsubstring

  /**
   * leftcommonsubstring(s1, s2). With COMPLEXPREFIXES: 1 when the last
   * characters agree and s1 is no longer, else 0. Otherwise: 0 when either
   * is empty or the first characters differ (s2's also after lowering),
   * else the length of the common prefix, the first character compared
   * after lowering.
   */
  method LeftCommon(ci: Casing, complexprefixes: bool, s1: seq<char>, s2: seq<char>) returns (r: nat)
    ensures complexprefixes ==> (r == 1 <==> 0 < |s1| <= |s2| && s1[|s1| - 1] == s2[|s2| - 1]) && r <= 1
    ensures !complexprefixes ==> (r == 0 <==> |s1| == 0 || |s2| == 0 || (s1[0] != s2[0] && s1[0] != ci.toLower(s2[0])))
    ensures !complexprefixes && r > 0 ==> r <= |s1| && r <= |s2| && s1[1..r] == s2[1..r]
    ensures !complexprefixes && 0 < r < |s1| && r < |s2| ==> s1[r] != s2[r]
  {
    var l1, l2 := |s1|, |s2|;
    if complexprefixes {
      if l1 > 0 && l1 <= l2 && s1[l1 - 1] == s2[l2 - 1] {
        return 1;
      }
      return 0;
    }
    if l1 == 0 || l2 == 0 || (s1[0] != s2[0] && s1[0] != ci.toLower(s2[0])) {
      return 0;
    }
    var i := 1;
    while i < l1 && i < l2 && s1[i] == s2[i]
      invariant 1 <= i <= l1 && i <= l2
      invariant s1[1..i] == s2[1..i]
    {
      assert s1[1..i + 1] == s1[1..i] + [s1[i]];
      assert s2[1..i + 1] == s2[1..i] + [s2[i]];
      i := i + 1;
    }
    r := i;
  }

  // ---------------------------------------------------------------------
  // commoncharacterpositions

  /** The character of s2 at i as compared: lowered, or with COMPLEXPREFIXES only the last one lowered. */
  function Folded(ci: Casing, cp: bool, s2: seq<char>, i: nat): char
    requires i < |s2|
  {
    if !cp || i == |s2| - 1 then ci.toLower(s2[i]) else s2[i]
  }

  /** The positions below k where s1 and the folded s2 differ, in order. */
  function MismatchesBelow(ci: Casing, cp: bool, s1: seq<char>, s2: seq<char>, k: nat): (m: seq<nat>)
    requires k <= |s1| && k <= |s2|
    ensures |m| <= k
    ensures forall x :: 0 <= x < |m| ==> m[x] < k
  {
    if k == 0 then []
    else MismatchesBelow(ci, cp, s1, s2, k - 1) + (if Differs(ci, cp, s1, s2, k - 1) then [k - 1] else [])
  }

  /** The mismatch list holds, in increasing order, exactly the positions below k where the characters differ. */
  lemma {:induction false} MismatchesAre(ci: Casing, cp: bool, s1: seq<char>, s2: seq<char>, k: nat)
    requires k <= |s1| && k <= |s2|
    ensures forall x :: 0 <= x < |MismatchesBelow(ci, cp, s1, s2, k)| ==>
      Differs(ci, cp, s1, s2, MismatchesBelow(ci, cp, s1, s2, k)[x])
    ensures forall x, y :: 0 <= x < y < |MismatchesBelow(ci, cp, s1, s2, k)| ==>
      MismatchesBelow(ci, cp, s1, s2, k)[x] < MismatchesBelow(ci, cp, s1, s2, k)[y]
    ensures forall p :: 0 <= p < k && Differs(ci, cp, s1, s2, p) ==> p in MismatchesBelow(ci, cp, s1, s2, k)
    decreases k
  {
    if k > 0 {
      MismatchesAre(ci, cp, s1, s2, k - 1);
      var m0 := MismatchesBelow(ci, cp, s1, s2, k - 1);
      var m := MismatchesBelow(ci, cp, s1, s2, k);
      assert m == m0 + (if Differs(ci, cp, s1, s2, k - 1) then [k - 1] else []);
    }
  }

  /** Position p is a mismatch of s1 against the folded s2. */
  predicate Differs(ci: Casing, cp: bool, s1: seq<char>, s2: seq<char>, p: nat)
  {
    p < |s1| && p < |s2| && s1[p] != Folded(ci, cp, s2, p)
  }

  /** The number of positions below k where s1 and the folded s2 agree. */
  function EqualBelow(ci: Casing, cp: bool, s1: seq<char>, s2: seq<char>, k: nat): nat
    requires k <= |s1| && k <= |s2|
  {
    if k == 0 then 0
    else EqualBelow(ci, cp, s1, s2, k - 1) + (if s1[k - 1] == Folded(ci, cp, s2, k - 1) then 1 else 0)
  }

  function Min(a: int, b: int): int
  {
    if a <= b then a else b
  }

  /** A transposition: equal lengths and exactly two mismatches, each holding the other's character. */
  predicate IsSwap(ci: Casing, cp: bool, s1: seq<char>, s2: seq<char>)
  {
    |s1| == |s2| &&
    var m := MismatchesBelow(ci, cp, s1, s2, |s1|);
    |m| == 2 && s1[m[0]] == Folded(ci, cp, s2, m[1]) && s1[m[1]] == Folded(ci, cp, s2, m[0])
  }

  /**
   * commoncharacterpositions(s1, s2, out is_swap): the positions common to
   * both where the characters agree, s2's lowered, and whether the two
   * words differ by one transposition.
   */
  method CommonPositions(ci: Casing, cp: bool, s1: seq<char>, s2: seq<char>) returns (num: nat, isSwap: bool)
    ensures num == EqualBelow(ci, cp, s1, s2, Min(|s1|, |s2|))
    ensures isSwap <==> IsSwap(ci, cp, s1, s2)
  {
    num := 0;
    var diff := 0;
    var d0s1, d0s2, d1s1, d1s2 := '\0', '\0', '\0', '\0';
    var i := 0;
    ghost var top := Min(|s1|, |s2|);
    while i < |s2| && i < |s1|
      invariant 0 <= i <= top
      invariant num == EqualBelow(ci, cp, s1, s2, i)
      invariant diff == |MismatchesBelow(ci, cp, s1, s2, i)|
      invariant diff >= 1 ==> var m := MismatchesBelow(ci, cp, s1, s2, i); d0s1 == s1[m[0]] && d0s2 == Folded(ci, cp, s2, m[0])
      invariant diff >= 2 ==> var m := MismatchesBelow(ci, cp, s1, s2, i); d1s1 == s1[m[1]] && d1s2 == Folded(ci, cp, s2, m[1])
    {
      var t := s2[i];
      if !cp || i == |s2| - 1 {
        t := ci.toLower(t);
      }
      if s1[i] == t {
        num := num + 1;
      } else {
        if diff == 0 {
          d0s1, d0s2 := s1[i], t;
        } else if diff == 1 {
          d1s1, d1s2 := s1[i], t;
        }
        diff := diff + 1;
      }
      i := i + 1;
    }
    isSwap := diff == 2 && i >= |s1| && i >= |s2| && d0s1 == d1s2 && d1s1 == d0s2;
  }

  /** Every position below k is counted once: as agreeing or as a mismatch. */
  lemma {:induction false} PositionsSplit(ci: Casing, cp: bool, s1: seq<char>, s2: seq<char>, k: nat)
    requires k <= |s1| && k <= |s2|
    ensures EqualBelow(ci, cp, s1, s2, k) + |MismatchesBelow(ci, cp, s1, s2, k)| == k
    decreases k
  {
    if k > 0 {
      PositionsSplit(ci, cp, s1, s2, k - 1);
    }
  }

  /** s with the characters at p and q exchanged. */
  function Exchanged(s: seq<char>, p: nat, q: nat): (r: seq<char>)
    requires p < q < |s|
    ensures |r| == |s| && r[p] == s[q] && r[q] == s[p]
    ensures forall k :: 0 <= k < |s| && k != p && k != q ==> r[k] == s[k]
  {
    s[p := s[q]][q := s[p]]
  }

  /** The mismatches of a word against itself with two different characters exchanged are the two positions. */
  lemma {:induction false} ExchangedMismatches(ci: Casing, cp: bool, s: seq<char>, p: nat, q: nat, k: nat)
    requires p < q < |s| && s[p] != s[q] && k <= |s|
    requires forall x :: 0 <= x < |s| ==> ci.toLower(s[x]) == s[x]
    ensures MismatchesBelow(ci, cp, s, Exchanged(s, p, q), k) ==
      (if k <= p then [] else if k <= q then [p] else [p, q])
    decreases k
  {
    if k > 0 {
      ExchangedMismatches(ci, cp, s, p, q, k - 1);
    }
  }

  /** Exchanging two different characters of a word that lowering leaves alone is a transposition, with all other positions equal. */
  lemma ExchangeIsSwap(ci: Casing, cp: bool, s: seq<char>, p: nat, q: nat)
    requires p < q < |s| && s[p] != s[q]
    requires forall x :: 0 <= x < |s| ==> ci.toLower(s[x]) == s[x]
    ensures IsSwap(ci, cp, s, Exchanged(s, p, q))
    ensures EqualBelow(ci, cp, s, Exchanged(s, p, q), |s|) == |s| - 2
  {
    ExchangedMismatches(ci, cp, s, p, q, |s|);
    PositionsSplit(ci, cp, s, Exchanged(s, p, q), |s|);
  }

  // ---------------------------------------------------------------------
  // lcs / lcslen

  /** The backtracking directions of lcs. */
  const LCS_UP: int := 0
  const LCS_LEFT: int := 1
  const LCS_UPLEFT: int := 2

  /** The length of a longest common subsequence of s[..i] and t[..j], by the usual recurrence. */
  function Lcs(s: seq<char>, t: seq<char>, i: nat, j: nat): nat
    requires i <= |s| && j <= |t|
    decreases i + j
  {
    if i == 0 || j == 0 then 0
    else if s[i - 1] == t[j - 1] then Lcs(s, t, i - 1, j - 1) + 1
    else Max(Lcs(s, t, i - 1, j), Lcs(s, t, i, j - 1))
  }

  /** The direction lcs records at cell (i, j). */
  function Dir(s: seq<char>, t: seq<char>, i: nat, j: nat): int
    requires 1 <= i <= |s| && 1 <= j <= |t|
  {
    if s[i - 1] == t[j - 1] then LCS_UPLEFT
    else if Lcs(s, t, i - 1, j) >= Lcs(s, t, i, j - 1) then LCS_UP
    else LCS_LEFT
  }

  /** u is a subsequence of w. */
  predicate Sub(u: seq<char>, w: seq<char>)
    decreases |w|
  {
    u == [] ||
    (w != [] &&
     ((u[|u| - 1] == w[|w| - 1] && Sub(u[..|u| - 1], w[..|w| - 1])) || Sub(u, w[..|w| - 1])))
  }

  lemma {:induction false} LcsBelow(s: seq<char>, t: seq<char>, i: nat, j: nat)
    requires i <= |s| && j <= |t|
    ensures Lcs(s, t, i, j) <= i && Lcs(s, t, i, j) <= j
    decreases i + j
  {
    if i > 0 && j > 0 {
      LcsBelow(s, t, i - 1, j - 1);
      if s[i - 1] != t[j - 1] {
        LcsBelow(s, t, i - 1, j);
        LcsBelow(s, t, i, j - 1);
      }
    }
  }

  lemma {:induction false} MonoI(s: seq<char>, t: seq<char>, i: nat, j: nat)
    requires 1 <= i <= |s| && j <= |t|
    ensures Lcs(s, t, i - 1, j) <= Lcs(s, t, i, j)
    decreases i + j, 1
  {
    if j > 0 && s[i - 1] == t[j - 1] {
      IncJ(s, t, i - 1, j);
    }
  }

  lemma {:induction false} IncJ(s: seq<char>, t: seq<char>, i: nat, j: nat)
    requires i <= |s| && 1 <= j <= |t|
    ensures Lcs(s, t, i, j) <= Lcs(s, t, i, j - 1) + 1
    decreases i + j, 0
  {
    if i > 0 {
      MonoI(s, t, i, j - 1);
      if s[i - 1] != t[j - 1] {
        IncJ(s, t, i - 1, j);
      }
    }
  }

  lemma {:induction false} MonoJ(s: seq<char>, t: seq<char>, i: nat, j: nat)
    requires i <= |s| && 1 <= j <= |t|
    ensures Lcs(s, t, i, j - 1) <= Lcs(s, t, i, j)
    decreases i + j, 1
  {
    if i > 0 && s[i - 1] == t[j - 1] {
      IncI(s, t, i, j - 1);
    }
  }

  lemma {:induction false} IncI(s: seq<char>, t: seq<char>, i: nat, j: nat)
    requires 1 <= i <= |s| && j <= |t|
    ensures Lcs(s, t, i, j) <= Lcs(s, t, i - 1, j) + 1
    decreases i + j, 0
  {
    if j > 0 {
      MonoJ(s, t, i - 1, j);
      if s[i - 1] != t[j - 1] {
        IncI(s, t, i, j - 1);
      }
    }
  }

  /** No common subsequence of s[..i] and t[..j] is longer than Lcs. */
  lemma {:induction false} LcsLongest(s: seq<char>, t: seq<char>, i: nat, j: nat, u: seq<char>)
    requires i <= |s| && j <= |t| && Sub(u, s[..i]) && Sub(u, t[..j])
    ensures |u| <= Lcs(s, t, i, j)
    decreases i + j
  {
    if u != [] {
      assert i > 0 && j > 0;
      assert s[..i][..i - 1] == s[..i - 1] && s[..i][i - 1] == s[i - 1];
      assert t[..j][..j - 1] == t[..j - 1] && t[..j][j - 1] == t[j - 1];
      if Sub(u, s[..i - 1]) {
        LcsLongest(s, t, i - 1, j, u);
        MonoI(s, t, i, j);
      } else if Sub(u, t[..j - 1]) {
        LcsLongest(s, t, i, j - 1, u);
        MonoJ(s, t, i, j);
      } else {
        LcsLongest(s, t, i - 1, j - 1, u[..|u| - 1]);
      }
    }
  }

  /** Some common subsequence of s[..i] and t[..j] has length Lcs. */
  lemma {:induction false} LcsCommon(s: seq<char>, t: seq<char>, i: nat, j: nat) returns (u: seq<char>)
    requires i <= |s| && j <= |t|
    ensures |u| == Lcs(s, t, i, j) && Sub(u, s[..i]) && Sub(u, t[..j])
    decreases i + j
  {
    if i == 0 || j == 0 {
      return [];
    }
    assert s[..i][..i - 1] == s[..i - 1] && s[..i][i - 1] == s[i - 1];
    assert t[..j][..j - 1] == t[..j - 1] && t[..j][j - 1] == t[j - 1];
    if s[i - 1] == t[j - 1] {
      var v := LcsCommon(s, t, i - 1, j - 1);
      u := v + [s[i - 1]];
      assert u[..|u| - 1] == v;
    } else if Lcs(s, t, i - 1, j) >= Lcs(s, t, i, j - 1) {
      u := LcsCommon(s, t, i - 1, j);
    } else {
      u := LcsCommon(s, t, i, j - 1);
    }
  }

  /** Cell (r, k) of the tables holds Lcs and, off the borders, Dir. */
  ghost predicate CellOk(s: seq<char>, t: seq<char>, c: array2<int>, b: array2<int>, r: nat, k: nat)
    requires c.Length0 == b.Length0 == |s| + 1 && c.Length1 == b.Length1 == |t| + 1
    requires r <= |s| && k <= |t|
    reads c, b
  {
    c[r, k] == Lcs(s, t, r, k) && (1 <= r && 1 <= k ==> b[r, k] == Dir(s, t, r, k))
  }

  /** The cells of row i below column j are done. */
  ghost predicate RowDone(s: seq<char>, t: seq<char>, c: array2<int>, b: array2<int>, i: nat, j: nat)
    requires c.Length0 == b.Length0 == |s| + 1 && c.Length1 == b.Length1 == |t| + 1
    requires i <= |s| && j <= |t| + 1
    reads c, b
  {
    forall k :: 0 <= k < j ==> CellOk(s, t, c, b, i, k)
  }

  /** Rows 0..i-1 are done. */
  ghost predicate TableTo(s: seq<char>, t: seq<char>, c: array2<int>, b: array2<int>, i: nat)
    requires c.Length0 == b.Length0 == |s| + 1 && c.Length1 == b.Length1 == |t| + 1
    requires i <= |s| + 1
    reads c, b
  {
    forall r, k :: 0 <= r < i && 0 <= k <= |t| ==> CellOk(s, t, c, b, r, k)
  }

  /** The value of one cell from its three neighbours; counts are bytes, so the increment wraps at 256. */
  function CellValue(s: seq<char>, t: seq<char>, i: nat, j: nat, diag: int, up: int, left: int): (int, int)
    requires 1 <= i <= |s| && 1 <= j <= |t|
  {
    if s[i - 1] == t[j - 1] then ((diag + 1) % 256, LCS_UPLEFT)
    else if up >= left then (up, LCS_UP)
    else (left, LCS_LEFT)
  }

  /** From neighbours holding Lcs, CellValue gives Lcs and Dir when no count can pass a byte. */
  lemma CellValueOk(s: seq<char>, t: seq<char>, i: nat, j: nat)
    requires 1 <= i <= |s| && 1 <= j <= |t| && Min(|s|, |t|) < 256
    ensures CellValue(s, t, i, j, Lcs(s, t, i - 1, j - 1), Lcs(s, t, i - 1, j), Lcs(s, t, i, j - 1)) ==
      (Lcs(s, t, i, j), Dir(s, t, i, j))
  {
    LcsBelow(s, t, i - 1, j - 1);
  }

  /** One cell of the table. */
  method Cell(s: seq<char>, t: seq<char>, c: array2<int>, b: array2<int>, i: nat, j: nat)
    requires c.Length0 == b.Length0 == |s| + 1 && c.Length1 == b.Length1 == |t| + 1 && c != b
    requires 1 <= i <= |s| && 1 <= j <= |t| && Min(|s|, |t|) < 256
    requires TableTo(s, t, c, b, i) && RowDone(s, t, c, b, i, j)
    modifies c, b
    ensures TableTo(s, t, c, b, i) && RowDone(s, t, c, b, i, j + 1)
    ensures forall r, k :: 0 <= r <= |s| && 0 <= k <= |t| && (r, k) != (i, j) ==> c[r, k] == old(c[r, k])
  {
    assert CellOk(s, t, c, b, i - 1, j - 1) && CellOk(s, t, c, b, i - 1, j) && CellOk(s, t, c, b, i, j - 1);
    CellValueOk(s, t, i, j);
    var v := CellValue(s, t, i, j, c[i - 1, j - 1], c[i - 1, j], c[i, j - 1]);
    c[i, j] := v.0;
    b[i, j] := v.1;
    forall r, k | 0 <= r < i && 0 <= k <= |t|
      ensures CellOk(s, t, c, b, r, k)
    {
      assert old(CellOk(s, t, c, b, r, k));
    }
    forall k | 0 <= k <= j
      ensures CellOk(s, t, c, b, i, k)
    {
      if k < j {
        assert old(CellOk(s, t, c, b, i, k));
      }
    }
  }

  /** The wrapped cell, for words whose counts can pass a byte; nothing is claimed about these. */
  method WrapCell(s: seq<char>, t: seq<char>, c: array2<int>, b: array2<int>, i: nat, j: nat)
    requires c.Length0 == b.Length0 == |s| + 1 && c.Length1 == b.Length1 == |t| + 1 && c != b
    requires 1 <= i <= |s| && 1 <= j <= |t|
    modifies c, b
    ensures forall r, k :: 0 <= r <= |s| && 0 <= k <= |t| && (r, k) != (i, j) ==> c[r, k] == old(c[r, k]) && b[r, k] == old(b[r, k])
  {
    if s[i - 1] == t[j - 1] {
      c[i, j] := (c[i - 1, j - 1] + 1) % 256;
      b[i, j] := LCS_UPLEFT;
    } else if c[i - 1, j] >= c[i, j - 1] {
      c[i, j] := c[i - 1, j];
      b[i, j] := LCS_UP;
    } else {
      c[i, j] := c[i, j - 1];
      b[i, j] := LCS_LEFT;
    }
  }

  /**
   * lcs(s, s2): the table of directions of the longest-common-subsequence
   * recurrence, with the lengths kept as bytes. When the shorter word has
   * fewer than 256 characters every direction is the recurrence's.
   */
  method LcsTable(s: seq<char>, t: seq<char>) returns (b: array2<int>)
    ensures fresh(b) && b.Length0 == |s| + 1 && b.Length1 == |t| + 1
    ensures Min(|s|, |t|) < 256 ==>
      forall i, j :: 1 <= i <= |s| && 1 <= j <= |t| ==> b[i, j] == Dir(s, t, i, j)
  {
    var m, n := |s| + 1, |t| + 1;
    var c := new int[m, n];
    b := new int[m, n];
    var small := Min(|s|, |t|) < 256;
    var i := 1;
    while i < m
      invariant 1 <= i <= m
      invariant forall r :: 1 <= r < i ==> c[r, 0] == 0
    {
      c[i, 0] := 0;
      i := i + 1;
    }
    var j := 0;
    while j < n
      invariant 0 <= j <= n
      invariant forall r :: 1 <= r < m ==> c[r, 0] == 0
      invariant forall k :: 0 <= k < j ==> c[0, k] == 0
    {
      c[0, j] := 0;
      j := j + 1;
    }
    i := 1;
    while i < m
      invariant 1 <= i <= m
      invariant small ==> TableTo(s, t, c, b, i)
      invariant forall r :: i <= r < m ==> c[r, 0] == 0
    {
      j := 1;
      while j < n
        invariant 1 <= j <= n
        invariant small ==> TableTo(s, t, c, b, i) && RowDone(s, t, c, b, i, j)
        invariant forall r :: i <= r < m ==> c[r, 0] == 0
      {
        if small {
          Cell(s, t, c, b, i, j);
        } else {
          WrapCell(s, t, c, b, i, j);
        }
        j := j + 1;
      }
      i := i + 1;
    }
    if small {
      forall r, k | 1 <= r <= |s| && 1 <= k <= |t|
        ensures b[r, k] == Dir(s, t, r, k)
      {
        assert CellOk(s, t, c, b, r, k);
      }
    }
  }

  /**
   * lcslen(s, s2): the walk back through lcs's directions from the last
   * cell, counting the diagonal steps. For words of which the shorter has
   * fewer than 256 characters it is the length of a longest common
   * subsequence (Lcs, with LcsCommon and LcsLongest).
   */
  method LcsLen(s: seq<char>, t: seq<char>) returns (len: nat)
    ensures Min(|s|, |t|) < 256 ==> len == Lcs(s, t, |s|, |t|)
  {
    var b := LcsTable(s, t);
    var small := Min(|s|, |t|) < 256;
    var i, j := |s|, |t|;
    len := 0;
    while i != 0 && j != 0
      invariant 0 <= i <= |s| && 0 <= j <= |t|
      invariant small ==> len + Lcs(s, t, i, j) == Lcs(s, t, |s|, |t|)
      decreases i + j
    {
      if b[i, j] == LCS_UPLEFT {
        len := len + 1;
        i, j := i - 1, j - 1;
      } else if b[i, j] == LCS_UP {
        i := i - 1;
      } else {
        j := j - 1;
      }
    }
  }
}
