/**
 * The last vetoes of the compound segmenter (AffixMgr.cs): a compound
 * reading is given up when the word is more likely a simple word with a
 * common misspelling (cpdrep_check) or two dictionary words written
 * together (cpdwordpair_check). Both ask candidate_check whether a
 * rewritten word is a plain word of the dictionary.
 */
module CompoundVetoes {
  import opened Base
  import opened AffixEntry
  import opened AffixIndex
  import opened AffixCheck
  import opened RepLists

  /** The parts of the affix manager a candidate check reads: settings with the dictionary, and the two affix indexes. */
  datatype Dict = Dict(s: Settings, pt: Table, st: Table)

  /** The indexes as the loader leaves them. */
  ghost predicate DictOk(d: Dict)
  {
    TableOk(d.pt) && TableOk(d.st) && Usable(d.pt.entries) && Usable(d.st.entries)
  }

  /** Sorted flag sets, under which the validators are exact. */
  ghost predicate Exact(d: Dict)
  {
    Sane(d.s, d.pt) && Sane(d.s, d.st)
  }

  /** candidate_check: w is in the dictionary, or is a dictionary word with affixes. */
  predicate Candidate(d: Dict, w: seq<char>, ctx: Ctx)
  {
    |d.s.dict(w)| > 0 || (|w| > 0 && AffixCheckSpec(d.s, d.pt, d.st, PfxQuery(w, 0, |w|, NOT, 0), ctx).rv.Some?)
  }

  method CandidateCheck(d: Dict, w: seq<char>, ctx: Ctx) returns (ok: bool)
    requires DictOk(d) && |w| > 0
    ensures Exact(d) ==> (ok <==> Candidate(d, w, ctx))
  {
    if |d.s.dict(w)| > 0 {
      return true;
    }
    var o := AffixCheck.AffixCheck(d.s, d.pt, d.st, PfxQuery(w, 0, |w|, NOT, 0), ctx);
    ok := o.rv.Some?;
  }

  /** The word length the vetoes use: the length asked for, at most the word's. */
  function Clip(wl: int, word: seq<char>): (n: nat)
    ensures n <= |word| && (0 <= wl ==> n <= wl)
  {
    if wl < 0 then 0 else if wl < |word| then wl else |word|
  }

  // ---------------------------------------------------------------------
  // cpdrep_check

  /** REP entries as loaded: their four context slots and a non-empty pattern. */
  predicate RepsOk(reps: seq<RepEntry>)
  {
    Shaped(reps) && forall k :: 0 <= k < |reps| ==> |reps[k].pattern| > 0
  }

  /** w with the occurrence of e's pattern at r replaced by e's mid-word replacement. */
  function RepCandidate(w: seq<char>, e: RepEntry, r: nat): (c: seq<char>)
    requires |e.outstrings| > 0 && r + |e.pattern| <= |w|
    ensures |c| == |w| - |e.pattern| + |e.outstrings[0]|
  {
    w[..r] + e.outstrings[0] + w[r + |e.pattern|..]
  }

  /** The REP entry has a mid-word replacement, its pattern occurs in w at r, and the replaced word is a plain word. */
  predicate RepHit(d: Dict, ctx: Ctx, w: seq<char>, e: RepEntry, r: nat)
  {
    |e.outstrings| > 0 && |e.outstrings[0]| > 0 && OccursAt(e.pattern, w, r) &&
    Candidate(d, RepCandidate(w, e, r), ctx)
  }

  /** No hit before r, no occurrence in [r, q) and no hit at q: no hit up to q. */
  lemma NoHitUpTo(d: Dict, ctx: Ctx, w: seq<char>, e: RepEntry, r: nat, q: nat)
    requires r <= q && forall p :: 0 <= p < r ==> !RepHit(d, ctx, w, e, p)
    requires forall p :: r <= p < q ==> !OccursAt(e.pattern, w, p)
    requires !RepHit(d, ctx, w, e, q)
    ensures forall p :: 0 <= p <= q ==> !RepHit(d, ctx, w, e, p)
  {
  }

  /** The occurrences of one entry, tried from the left. */
  method RepEntryHit(d: Dict, ctx: Ctx, w: seq<char>, e: RepEntry) returns (hit: bool)
    requires DictOk(d) && |e.outstrings| > 0 && |e.outstrings[0]| > 0 && |e.pattern| > 0
    ensures Exact(d) ==> (hit <==> exists r :: RepHit(d, ctx, w, e, r))
  {
    var r := 0;
    while true
      invariant Exact(d) ==> forall p :: 0 <= p < r ==> !RepHit(d, ctx, w, e, p)
      decreases |w| - r
    {
      var q := FirstOccurrence(e.pattern, w, r);
      if q < 0 {
        assert Exact(d) ==> forall p :: !RepHit(d, ctx, w, e, p) by {
          if Exact(d) {
            forall p: nat ensures !RepHit(d, ctx, w, e, p) {
              if p >= r {
                assert !OccursAt(e.pattern, w, p);
              }
            }
          }
        }
        return false;
      }
      var c := RepCandidate(w, e, q);
      hit := CandidateCheck(d, c, ctx);
      if hit {
        assert Exact(d) ==> RepHit(d, ctx, w, e, q);
        return;
      }
      if Exact(d) {
        NoHitUpTo(d, ctx, w, e, r, q);
      }
      r := q + 1;
    }
  }

  /** Some REP entry, replaced at some occurrence of its pattern, makes w a plain word; words shorter than 2 never are. */
  ghost predicate RepVetoed(d: Dict, ctx: Ctx, w: seq<char>, reps: seq<RepEntry>)
  {
    |w| >= 2 && exists k, p :: 0 <= k < |reps| && RepHit(d, ctx, w, reps[k], p)
  }

  /** cpdrep_check over the first wl characters of the word. */
  method CpdRep(d: Dict, ctx: Ctx, word: seq<char>, wl0: int, reps: seq<RepEntry>) returns (r: bool)
    requires DictOk(d) && RepsOk(reps)
    ensures Exact(d) ==> (r <==> RepVetoed(d, ctx, word[..Clip(wl0, word)], reps))
  {
    var wl := Clip(wl0, word);
    var w := word[..wl];
    if wl < 2 || |reps| == 0 {
      return false;
    }
    for k := 0 to |reps|
      invariant Exact(d) ==> forall k', p :: 0 <= k' < k ==> !RepHit(d, ctx, w, reps[k'], p)
    {
      var e := reps[k];
      assert |e.outstrings| == 4;
      if |e.outstrings[0]| > 0 {
        r := RepEntryHit(d, ctx, w, e);
        if r {
          return;
        }
      }
    }
    r := false;
  }

  /**
   * cpdrep_check as written: occurrences are searched in the whole word,
   * but the candidate is assembled from its first wl characters, so an
   * occurrence that runs past wl makes the tail copy's count negative and
   * the copy throws (None).
   */
  method CpdRepAsWritten(d: Dict, ctx: Ctx, word: seq<char>, wl0: int, e: RepEntry) returns (r: Option<bool>)
    requires DictOk(d) && |e.outstrings| > 0 && |e.outstrings[0]| > 0 && |e.pattern| > 0
    ensures r == Some(true) ==> exists p :: OccursAt(e.pattern, word, p)
    ensures r.None? ==> exists p :: OccursAt(e.pattern, word, p) && p + |e.pattern| > Clip(wl0, word)
  {
    var wl := Clip(wl0, word);
    if wl < 2 {
      return Some(false);
    }
    var p := 0;
    while true
      decreases |word| - p
    {
      var q := FirstOccurrence(e.pattern, word, p);
      if q < 0 {
        return Some(false);
      }
      if wl - q - |e.pattern| < 0 {
        return None;
      }
      var c := RepCandidate(word[..wl], e, q);
      var hit := CandidateCheck(d, c, ctx);
      if hit {
        return Some(true);
      }
      p := q + 1;
    }
  }

  /** The REP pattern "cd" occurs in "abcd" at 2, past the first two characters the check is asked about. */
  lemma RepOccurrencePastLength()
    ensures FirstOccurrence("cd", "abcd", 0) == 2 && 2 + |"cd"| > Clip(2, "abcd")
    ensures forall p :: !OccursAt("cd", "abcd"[..2], p)
  {
    assert "abcd"[0..2] == "ab" && "abcd"[1..3] == "bc" && "abcd"[2..4] == "cd";
    assert FirstOccurrence("cd", "abcd", 2) == 2;
    assert FirstOccurrence("cd", "abcd", 1) == 2;
  }

  // ---------------------------------------------------------------------
  // cpdwordpair_check

  /** The word with a space inserted before position i. */
  function Spaced(w: seq<char>, i: nat): (c: seq<char>)
    requires i <= |w|
    ensures |c| == |w| + 1 && c[i] == ' '
  {
    w[..i] + [' '] + w[i..]
  }

  /** No space put before 1..i-1 makes a plain word. */
  ghost predicate NoPairBefore(d: Dict, ctx: Ctx, w: seq<char>, i: nat)
  {
    forall j :: 1 <= j < i <= |w| ==> !Candidate(d, Spaced(w, j), ctx)
  }

  lemma PairAt(d: Dict, ctx: Ctx, w: seq<char>, i: nat)
    requires 1 <= i < |w| - 1 && Candidate(d, Spaced(w, i), ctx)
    ensures PairVetoed(d, ctx, w)
  {
  }

  lemma NoPairStep(d: Dict, ctx: Ctx, w: seq<char>, i: nat)
    requires 1 <= i < |w| && NoPairBefore(d, ctx, w, i) && !Candidate(d, Spaced(w, i), ctx)
    ensures NoPairBefore(d, ctx, w, i + 1)
  {
  }

  lemma NoPairAll(d: Dict, ctx: Ctx, w: seq<char>)
    requires 2 <= |w| && NoPairBefore(d, ctx, w, |w| - 1)
    ensures !PairVetoed(d, ctx, w)
  {
  }

  /** A fresh buffer of wl+1 characters holding the first wl characters of the word from position 1. */
  method Shifted(word: seq<char>, wl: nat) returns (cand: array<char>)
    requires wl <= |word|
    ensures fresh(cand) && cand.Length == wl + 1 && cand[1..] == word[..wl]
  {
    cand := new char[wl + 1];
    forall k | 1 <= k <= wl {
      cand[k] := word[k - 1];
    }
  }

  /** Moves the space in the buffer one place to the right: the buffer then holds w spaced before i. */
  method MoveSpace(cand: array<char>, ghost w: seq<char>, i: nat)
    requires cand.Length == |w| + 1 && 1 <= i < |w|
    requires cand[..i - 1] == w[..i - 1] && cand[i..] == w[i - 1..]
    modifies cand
    ensures cand[..] == Spaced(w, i)
    ensures cand[..i] == w[..i] && cand[i + 1..] == w[i..]
  {
    cand[i - 1] := cand[i];
    cand[i] := ' ';
    assert cand[..i] == w[..i];
    assert cand[i + 1..] == w[i..];
    assert cand[..] == cand[..i] + [cand[i]] + cand[i + 1..];
  }

  /** A space put before one of the positions 1..|w|-2 makes w a plain word: a word pair the dictionary lists with a space. */
  ghost predicate PairVetoed(d: Dict, ctx: Ctx, w: seq<char>)
  {
    |w| > 2 && exists i :: 1 <= i < |w| - 1 && Candidate(d, Spaced(w, i), ctx)
  }

  /**
   * cpdwordpair_check over the first wl characters of the word: the space
   * is moved through a buffer of wl+1 characters, and each spaced word is
   * given to candidate_check.
   */
  method CpdWordPair(d: Dict, ctx: Ctx, word: seq<char>, wl0: int) returns (r: bool)
    requires DictOk(d)
    ensures Exact(d) ==> (r <==> PairVetoed(d, ctx, word[..Clip(wl0, word)]))
  {
    var wl := Clip(wl0, word);
    if wl <= 2 {
      return false;
    }
    ghost var w := word[..wl];
    var cand := Shifted(word, wl);
    var i := 1;
    while i < wl - 1
      invariant 1 <= i <= wl - 1
      invariant cand.Length == wl + 1
      invariant cand[..i - 1] == w[..i - 1] && cand[i..] == w[i - 1..]
      invariant Exact(d) ==> NoPairBefore(d, ctx, w, i)
    {
      MoveSpace(cand, w, i);
      r := CandidateCheck(d, cand[..], ctx);
      if r {
        if Exact(d) {
          PairAt(d, ctx, w, i);
        }
        return;
      }
      if Exact(d) {
        NoPairStep(d, ctx, w, i);
      }
      i := i + 1;
    }
    if Exact(d) {
      NoPairAll(d, ctx, w);
    }
    r := false;
  }
}
