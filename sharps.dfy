/**
 * spellsharps (Hunspell.cs): with CHECKSHARPS, an upper-case word written
 * with "SS" is also looked up with some of its "ss" (after lowering)
 * turned into the sharp s. The search is a recursion over the occurrences
 * of "ss" from left to right: each one is first rewritten, then left
 * alone; at most MAXSHARPS occurrences are decided, and only a word with
 * at least one rewrite is handed to checkword (a parameter here).
 */
module SpellSharps {
  import opened Base

  /** The most "ss" occurrences one search decides. */
  const MAXSHARPS: nat := 5
  /** LATIN SMALL LETTER SHARP S. */
  const SHARP_S: char := '\U{00DF}'

  /** word with the "ss" at pos replaced by the sharp s. */
  function Rewritten(word: string, pos: nat): (r: string)
    requires pos + 2 <= |word|
    ensures |r| == |word| - 1
  {
    word[..pos] + [SHARP_S] + word[pos + 2..]
  }

  /** word.IndexOf("ss", from): the first "ss" at or after from, or -1. */
  function NextPair(word: string, from: nat): (r: int)
    ensures r == -1 || (from <= r && r + 2 <= |word| && word[r] == 's' && word[r + 1] == 's')
    decreases |word| - from
  {
    if from + 2 > |word| then -1
    else if word[from] == 's' && word[from + 1] == 's' then from
    else NextPair(word, from + 1)
  }

  /** NextPair is the first occurrence of "ss". */
  lemma {:induction false} NextPairIsFirst(word: string, from: nat)
    ensures NextPair(word, from) == FirstOccurrence("ss", word, from)
    decreases |word| - from
  {
    if from + 2 <= |word| {
      assert (word[from..from + 2] == "ss") <==> (word[from] == 's' && word[from + 1] == 's');
      if !(word[from] == 's' && word[from + 1] == 's') {
        NextPairIsFirst(word, from + 1);
      }
    }
  }

  /**
   * spellsharps(word, n_pos, n, repnum): the first root found, trying the
   * rewrite of the next "ss" before leaving it alone.
   */
  function Sharps<R>(word: string, npos: nat, n: nat, repnum: nat, check: string -> Option<R>): Option<R>
    requires npos <= |word|
    decreases MAXSHARPS - n
  {
    var pos := NextPair(word, npos);
    if pos >= 0 && n < MAXSHARPS then
      var h := Sharps(Rewritten(word, pos), pos + 1, n + 1, repnum + 1, check);
      if h.Some? then h else Sharps(word, pos + 2, n + 1, repnum, check)
    else if repnum > 0 then check(word)
    else None
  }

  /** The words the recursion hands to checkword, in order, each with its number of rewrites. */
  function Candidates(word: string, npos: nat, n: nat, repnum: nat): seq<(string, nat)>
    requires npos <= |word|
    decreases MAXSHARPS - n
  {
    var pos := NextPair(word, npos);
    if pos >= 0 && n < MAXSHARPS then
      Candidates(Rewritten(word, pos), pos + 1, n + 1, repnum + 1) + Candidates(word, pos + 2, n + 1, repnum)
    else if repnum > 0 then [(word, repnum)]
    else []
  }

  /** The root checkword finds for the first candidate, in order, for which it finds one. */
  function FirstFound<R>(check: string -> Option<R>, cs: seq<(string, nat)>): Option<R>
  {
    if cs == [] then None else if check(cs[0].0).Some? then check(cs[0].0) else FirstFound(check, cs[1..])
  }

  lemma {:induction false} FirstFoundAppend<R>(check: string -> Option<R>, a: seq<(string, nat)>, b: seq<(string, nat)>)
    ensures FirstFound(check, a + b) == if FirstFound(check, a).Some? then FirstFound(check, a) else FirstFound(check, b)
    decreases |a|
  {
    if a != [] {
      assert (a + b)[1..] == a[1..] + b;
      FirstFoundAppend(check, a[1..], b);
    } else {
      assert a + b == b;
    }
  }

  /** One level of both recursions at a pair that is decided. */
  lemma SharpsUnfold<R>(word: string, npos: nat, n: nat, repnum: nat, check: string -> Option<R>)
    requires npos <= |word|
    requires NextPair(word, npos) >= 0 && n < MAXSHARPS
    ensures var pos := NextPair(word, npos);
      var h := Sharps(Rewritten(word, pos), pos + 1, n + 1, repnum + 1, check);
      Sharps(word, npos, n, repnum, check) == (if h.Some? then h else Sharps(word, pos + 2, n + 1, repnum, check)) &&
      Candidates(word, npos, n, repnum) == Candidates(Rewritten(word, pos), pos + 1, n + 1, repnum + 1) + Candidates(word, pos + 2, n + 1, repnum)
  {
  }

  /** A decided pair: both branches agree with their candidates, so does the node. */
  lemma SharpsNode<R>(word: string, npos: nat, n: nat, repnum: nat, check: string -> Option<R>)
    requires npos <= |word|
    requires NextPair(word, npos) >= 0 && n < MAXSHARPS
    requires var pos := NextPair(word, npos);
      Sharps(Rewritten(word, pos), pos + 1, n + 1, repnum + 1, check) == FirstFound(check, Candidates(Rewritten(word, pos), pos + 1, n + 1, repnum + 1)) &&
      Sharps(word, pos + 2, n + 1, repnum, check) == FirstFound(check, Candidates(word, pos + 2, n + 1, repnum))
    ensures Sharps(word, npos, n, repnum, check) == FirstFound(check, Candidates(word, npos, n, repnum))
  {
    var pos := NextPair(word, npos);
    SharpsUnfold(word, npos, n, repnum, check);
    FirstFoundAppend(check, Candidates(Rewritten(word, pos), pos + 1, n + 1, repnum + 1), Candidates(word, pos + 2, n + 1, repnum));
  }

  /** The last level: checkword once, when a rewrite was made. */
  lemma SharpsLeaf<R>(word: string, npos: nat, n: nat, repnum: nat, check: string -> Option<R>)
    requires npos <= |word|
    requires !(NextPair(word, npos) >= 0 && n < MAXSHARPS)
    ensures Sharps(word, npos, n, repnum, check) == FirstFound(check, Candidates(word, npos, n, repnum))
  {
    if repnum > 0 {
      var c := [(word, repnum)];
      assert Candidates(word, npos, n, repnum) == c;
      assert c[1..] == [];
    } else {
      assert Candidates(word, npos, n, repnum) == [];
    }
  }

  /** The search returns checkword's root for the first candidate that has one. */
  lemma {:induction false} SharpsIsFirstFound<R>(word: string, npos: nat, n: nat, repnum: nat, check: string -> Option<R>)
    requires npos <= |word|
    ensures Sharps(word, npos, n, repnum, check) == FirstFound(check, Candidates(word, npos, n, repnum))
    decreases MAXSHARPS - n
  {
    var pos := NextPair(word, npos);
    if pos >= 0 && n < MAXSHARPS {
      SharpsIsFirstFound(Rewritten(word, pos), pos + 1, n + 1, repnum + 1, check);
      SharpsIsFirstFound(word, pos + 2, n + 1, repnum, check);
      SharpsNode(word, npos, n, repnum, check);
    } else {
      SharpsLeaf(word, npos, n, repnum, check);
    }
  }

  /** A rewrite adds one sharp s. */
  lemma RewriteCount(word: string, pos: nat)
    requires pos + 2 <= |word| && word[pos] == 's' && word[pos + 1] == 's'
    ensures multiset(Rewritten(word, pos))[SHARP_S] == multiset(word)[SHARP_S] + 1
  {
    assert word == word[..pos] + word[pos..pos + 2] + word[pos + 2..];
    assert multiset(word[pos..pos + 2])[SHARP_S] == 0;
  }

  /** c is a candidate reached from a word with repnum rewrites and n decisions made. */
  predicate Reached(word: string, n: nat, repnum: nat, c: (string, nat))
  {
    repnum <= c.1 && c.1 >= 1 && c.1 - repnum + n <= Max(n, MAXSHARPS) &&
    |c.0| + c.1 == |word| + repnum &&
    multiset(c.0)[SHARP_S] + repnum == multiset(word)[SHARP_S] + c.1
  }

  function Max(a: int, b: int): int { if a >= b then a else b }

  lemma {:induction false} CandidatesReached(word: string, npos: nat, n: nat, repnum: nat)
    requires npos <= |word|
    ensures forall i :: 0 <= i < |Candidates(word, npos, n, repnum)| ==> Reached(word, n, repnum, Candidates(word, npos, n, repnum)[i])
    decreases MAXSHARPS - n
  {
    var pos := NextPair(word, npos);
    if pos >= 0 && n < MAXSHARPS {
      var w2 := Rewritten(word, pos);
      CandidatesReached(w2, pos + 1, n + 1, repnum + 1);
      CandidatesReached(word, pos + 2, n + 1, repnum);
      RewriteCount(word, pos);
      var a, b := Candidates(w2, pos + 1, n + 1, repnum + 1), Candidates(word, pos + 2, n + 1, repnum);
      forall i | 0 <= i < |a + b| ensures Reached(word, n, repnum, (a + b)[i]) {
        if i < |a| {
          assert Reached(w2, n + 1, repnum + 1, a[i]);
        } else {
          assert Reached(word, n + 1, repnum, b[i - |a|]);
        }
      }
    }
  }

  /**
   * Every word spellsharps(word, 0, 0, 0) hands to checkword has between 1
   * and MAXSHARPS of its "ss" rewritten: it is that many characters
   * shorter and holds that many more sharp s.
   */
  lemma SharpCandidates(word: string)
    ensures forall i :: 0 <= i < |Candidates(word, 0, 0, 0)| ==>
      var (w, r) := Candidates(word, 0, 0, 0)[i];
      1 <= r <= MAXSHARPS && |w| == |word| - r && multiset(w)[SHARP_S] == multiset(word)[SHARP_S] + r
  {
    CandidatesReached(word, 0, 0, 0);
  }

  /** A word without "ss" is never handed to checkword. */
  lemma NoPairNoCheck<R>(word: string, check: string -> Option<R>)
    requires FirstOccurrence("ss", word, 0) < 0
    ensures Sharps(word, 0, 0, 0, check) == None
  {
    NextPairIsFirst(word, 0);
  }
}
