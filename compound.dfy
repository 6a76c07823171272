/**
 * compound_check (AffixMgr.cs): the split-point search of the compound
 * segmenter. For each split position i inside the least member lengths,
 * the first i characters must be a dictionary word (or an affixed form)
 * allowed at the start of a compound, and the rest must be a word allowed
 * at its end, an affixed word, or itself a compound (the recursive call).
 * COMPOUNDRULE patterns get a second pass over the same positions, in
 * which the members' flag sets are collected in the context's buffer of
 * MAXWORDNUM members and matched by defcpd_check.
 *
 * The simplified CHECKCOMPOUNDPATTERN substitution (SIMPLIFIEDCPD) and the
 * Hungarian rules are not part of this model: the pattern loop runs once
 * per pass, with no replacement, as it does when SIMPLIFIEDCPD is unset.
 */
module Compound {
  import opened Base
  import opened Flags
  import opened Locale
  import opened AffixEntry
  import opened AffixIndex
  import opened AffixCheck
  import opened RepLists
  import opened CompoundRules
  import opened CompoundVetoes

  /** TIMELIMIT of the affix manager: 1000 / 20 milliseconds for one compound search. */
  const TIMELIMIT: int := 1000 / 20

  /** The length of the context's compound buffer, the members one COMPOUNDRULE match can collect. */
  const MAXWORDNUM: nat := 100

  /** The compound settings of the affix file; flags are 0 when unset, cpdwordmax is -1 when unset. */
  datatype Cfg = Cfg(
    compoundflag: Flag, compoundbegin: Flag, compoundmiddle: Flag, compoundend: Flag,
    compoundroot: Flag, compoundforbidflag: Flag, forbiddenword: Flag, nosuggest: Flag,
    forceucase: Flag, cpdmin: int, cpdwordmax: int, cpdmaxsyllable: int, cpdvowels: seq<char>,
    checktriple: bool, checkcase: bool, checkdup: bool, checkrep: bool,
    simplifiedtriple: bool, moresuffixes: bool,
    checkcpd: seq<PatEntry>, defcpd: seq<seq<Flag>>, reps: seq<RepEntry>, casing: Casing)

  /** Settings as the loader leaves them: cpdmin at least 1, REP entries shaped. */
  predicate CfgOk(c: Cfg)
  {
    c.cpdmin >= 1 && RepsOk(c.reps)
  }

  /** The bits of the SPELL info compound_check reads: ORIGCAP and COMPOUND_2. */
  datatype Info = Info(origcap: bool, compound2: bool)

  /** A member carrying FORBIDDENWORD or ONLYUPCASE, or NOSUGGEST while suggesting, spoils the whole compound. */
  predicate Forbidden(c: Cfg, isSug: bool, h: HEntry)
  {
    Probe(h.astr, c.forbiddenword) || Probe(h.astr, ONLYUPCASEFLAG) ||
    (isSug && c.nosuggest != 0 && Probe(h.astr, c.nosuggest))
  }

  /** The affix is set and its continuation class holds the (set) flag f. */
  predicate ContHas(e: Option<AffEntry>, f: Flag)
  {
    f != 0 && e.Some? && Probe(e.value.contclass, f)
  }

  // ---------------------------------------------------------------------
  // The time limit

  /**
   * The context's compound timer: a stopwatch started at start, and the
   * IsExpired flag. The stopwatch is read through clock, whose k-th value
   * is the time of the k-th reading.
   */
  class CpdTimer {
    var expired: bool
    var start: int
    var polls: nat

    constructor ()
      ensures !expired && start == 0 && polls == 0
    {
      expired := false;
      start := 0;
      polls := 0;
    }

    /**
     * The entry of compound_check: the search of a whole word (wordnum 0)
     * restarts the stopwatch and clears IsExpired; a nested search sets
     * IsExpired once more than TIMELIMIT milliseconds have passed.
     */
    method Poll(wordnum: int, clock: nat -> int)
      modifies this
      ensures polls == old(polls) + 1
      ensures wordnum == 0 ==> !expired && start == clock(old(polls))
      ensures wordnum != 0 ==> start == old(start)
      ensures wordnum != 0 ==> (expired <==> old(expired) || clock(old(polls)) - old(start) > TIMELIMIT)
    {
      var now := clock(polls);
      polls := polls + 1;
      if wordnum == 0 {
        expired := false;
        start := now;
      } else if now - start > TIMELIMIT {
        expired := true;
      }
    }
  }

  // ---------------------------------------------------------------------
  // What a first member may be

  /** h is a root prefix_check finds for word[..i] at the start of a compound, with some need flag. */
  ghost predicate PfxReading(d: Dict, word: seq<char>, i: nat, h: HEntry)
  {
    exists fl: Flag, ctx: Ctx :: PrefixCheckSpec(d.s, d.pt, d.st, PfxQuery(word, 0, i, BEGIN, fl), ctx).rv == Some(h)
  }

  /** h is a root suffix_check finds for word[..i] at the start of a compound, with some need flag. */
  ghost predicate SfxReading(d: Dict, word: seq<char>, i: nat, h: HEntry)
  {
    exists fl: Flag, ctx: Ctx, c2: Ctx ::
      SuffixCheckSpec(d.s, d.st, SfxQuery(word, 0, i, false, None, 0, fl, BEGIN), ctx) == Some(Hit(h, c2))
  }

  /** h is a root suffix_check_twosfx finds for word[..i], with some need flag. */
  ghost predicate TwoReading(d: Dict, word: seq<char>, i: nat, h: HEntry)
  {
    exists fl: Flag, ctx: Ctx, c2: Ctx ::
      SuffixCheckTwoSpec(d.s, d.st, TwoQuery(word, 0, i, false, None, fl), ctx) == Some(Hit(h, c2))
  }

  /** h reads the first i characters of the word: a homonym of them, or a root the affix validators find for them. */
  ghost predicate Reading(d: Dict, word: seq<char>, i: nat, h: HEntry)
    requires i <= |word|
  {
    h in d.s.dict(word[..i]) || PfxReading(d, word, i, h) || SfxReading(d, word, i, h) || TwoReading(d, word, i, h)
  }

  /** The homonym test of the first member outside the COMPOUNDRULE pass. */
  predicate FirstAdmits(c: Cfg, needaffix: Flag, h: HEntry, wordnum: int, inUse: bool)
  {
    !(needaffix != 0 && Probe(h.astr, needaffix)) &&
    ((c.compoundflag != 0 && !inUse && Probe(h.astr, c.compoundflag)) ||
     (c.compoundbegin != 0 && wordnum == 0 && Probe(h.astr, c.compoundbegin)) ||
     (c.compoundmiddle != 0 && wordnum != 0 && !inUse && Probe(h.astr, c.compoundmiddle)))
  }

  /**
   * The homonym loop of the first member: the first homonym that passes
   * the flag test, or, in the COMPOUNDRULE pass, the first one defcpd_check
   * accepts (collected at wnum). -1 when there is none.
   */
  method FirstHomonym(c: Cfg, rwords: array<Option<HEntry>>, hs: seq<HEntry>, needaffix: Flag,
                      wordnum: int, wnum: nat, pass: nat, inUse: bool)
    returns (k: int, inUse': bool)
    requires wnum < rwords.Length
    modifies rwords
    ensures -1 <= k < |hs|
    ensures pass == 0 ==> unchanged(rwords) && inUse' == inUse
    ensures pass == 0 && k >= 0 ==> FirstAdmits(c, needaffix, hs[k], wordnum, inUse)
    ensures pass == 0 ==> forall j :: 0 <= j < |hs| && (k < 0 || j < k) ==> !FirstAdmits(c, needaffix, hs[j], wordnum, inUse)
    ensures |c.defcpd| == 0 ==> unchanged(rwords) && inUse' == inUse
    ensures pass != 0 && k >= 0 ==> inUse' && rwords[wnum] == Some(hs[k]) && Named(c.defcpd, hs[k].astr)
  {
    inUse' := inUse;
    k := 0;
    while k < |hs|
      invariant 0 <= k <= |hs|
      invariant pass == 0 ==> unchanged(rwords) && inUse' == inUse
      invariant pass == 0 ==> forall j :: 0 <= j < k ==> !FirstAdmits(c, needaffix, hs[j], wordnum, inUse)
      invariant |c.defcpd| == 0 ==> unchanged(rwords) && inUse' == inUse
    {
      var h := hs[k];
      var ok := false;
      if needaffix != 0 && Probe(h.astr, needaffix) {
        ok := false;
      } else if pass == 0 {
        ok := FirstAdmits(c, needaffix, h, wordnum, inUse);
      } else if |c.defcpd| > 0 && (inUse' || wordnum == 0) {
        ok, inUse' := DefcpdCheck(rwords, inUse', !inUse', wnum, h, c.defcpd, false);
      }
      if ok {
        return;
      }
      k := k + 1;
    }
    k := -1;
  }

  /**
   * The first member as an affixed form with COMPOUNDFLAG: prefix_check,
   * then suffix_check, then (with COMPOUNDMORESUFFIXES) the two-suffix
   * check; a suffix whose continuation class holds COMPOUNDFORBIDFLAG or
   * COMPOUNDEND is refused.
   */
  method FlaggedFirst(d: Dict, c: Cfg, word: seq<char>, i: nat, ctx0: Ctx) returns (rv: Option<HEntry>, ctx: Ctx)
    requires DictOk(d) && 1 <= i < |word|
    ensures rv.Some? && Exact(d) ==> PfxReading(d, word, i, rv.value) || SfxReading(d, word, i, rv.value) || TwoReading(d, word, i, rv.value)
  {
    var o := PrefixCheck(d.s, d.pt, d.st, PfxQuery(word, 0, i, BEGIN, c.compoundflag), ctx0);
    rv, ctx := o.rv, o.ctx;
    if rv.Some? {
      return;
    }
    var h := SuffixCheck(d.s, d.st, SfxQuery(word, 0, i, false, None, 0, c.compoundflag, BEGIN), ctx);
    var two := false;
    if h.None? && c.moresuffixes {
      h := SuffixCheckTwo(d.s, d.st, TwoQuery(word, 0, i, false, None, c.compoundflag), ctx);
      two := true;
    }
    if h.Some? {
      assert Exact(d) ==> (if two then TwoReading(d, word, i, h.value.he) else SfxReading(d, word, i, h.value.he));
      rv, ctx := Some(h.value.he), h.value.ctx;
      if ContHas(ctx.sfx, c.compoundforbidflag) || ContHas(ctx.sfx, c.compoundend) {
        rv := None;
      }
    }
  }

  /**
   * The first member as an affixed form with COMPOUNDBEGIN (or, inside a
   * compound, COMPOUNDMIDDLE): suffix_check, the two-suffix check, then
   * prefix_check.
   */
  method BoundaryFirst(d: Dict, c: Cfg, word: seq<char>, i: nat, fl: Flag, ctx0: Ctx) returns (rv: Option<HEntry>, ctx: Ctx)
    requires DictOk(d) && 1 <= i < |word|
    ensures rv.Some? && Exact(d) ==> PfxReading(d, word, i, rv.value) || SfxReading(d, word, i, rv.value) || TwoReading(d, word, i, rv.value)
  {
    ctx := ctx0;
    var h := SuffixCheck(d.s, d.st, SfxQuery(word, 0, i, false, None, 0, fl, BEGIN), ctx);
    if h.Some? {
      assert Exact(d) ==> SfxReading(d, word, i, h.value.he);
      return Some(h.value.he), h.value.ctx;
    }
    if c.moresuffixes {
      h := SuffixCheckTwo(d.s, d.st, TwoQuery(word, 0, i, false, None, fl), ctx);
      if h.Some? {
        assert Exact(d) ==> TwoReading(d, word, i, h.value.he);
        return Some(h.value.he), h.value.ctx;
      }
    }
    var o := PrefixCheck(d.s, d.pt, d.st, PfxQuery(word, 0, i, BEGIN, fl), ctx);
    rv, ctx := o.rv, o.ctx;
  }

  /** The outcome of the first member at a split. */
  datatype First = Skip | Refuse | Member(rv: HEntry, affixed: bool, wordnum: int)

  /**
   * The reading of the first member word[..i]: a homonym the flag test (or,
   * in the COMPOUNDRULE pass, defcpd_check) admits, or else, outside that
   * pass, an affixed form with COMPOUNDFLAG, COMPOUNDBEGIN or
   * COMPOUNDMIDDLE, for which checkedPrefix is set. skip ends this pass at
   * the split: a stem with COMPOUNDFORBIDFLAG, or a homonym that is
   * forbidden, needs an affix or is ONLYUPCASE (or NOSUGGEST while
   * suggesting).
   */
  method FirstReading(d: Dict, c: Cfg, rwords: array<Option<HEntry>>, word: seq<char>, i: nat,
                      wordnum: int, wnum: nat, pass: nat, inUse: bool, isSug: bool, ctx0: Ctx)
    returns (skip: bool, rv: Option<HEntry>, affixed: bool, checkedPrefix: bool, inUse': bool, ctx: Ctx)
    requires DictOk(d) && rwords.Length == MAXWORDNUM && wnum < MAXWORDNUM
    requires 1 <= i < |word|
    modifies rwords
    ensures rv.Some? && Exact(d) ==> Reading(d, word, i, rv.value)
    ensures rv.Some? && !affixed ==> rv.value in d.s.dict(word[..i])
    ensures rv.Some? && pass != 0 ==> !affixed && inUse'
    ensures pass == 0 || |c.defcpd| == 0 ==> unchanged(rwords) && inUse' == inUse
  {
    ctx := ctx0.(sfx := None, pfx := None);
    inUse', skip, rv, affixed, checkedPrefix := inUse, true, None, true, false;
    var hs := d.s.dict(word[..i]);
    // COMPOUNDFORBIDFLAG on the stem overrides COMPOUNDPERMITFLAG
    if |hs| > 0 && c.compoundforbidflag != 0 && Probe(hs[0].astr, c.compoundforbidflag) {
      return;
    }
    var k;
    k, inUse' := FirstHomonym(c, rwords, hs, d.s.needaffix, wordnum, wnum, pass, inUse);
    if k >= 0 {
      rv, affixed := Some(hs[k]), false;
      var a := hs[k].astr;
      skip := Probe(a, c.forbiddenword) || (d.s.needaffix != 0 && Probe(a, d.s.needaffix)) ||
              Probe(a, ONLYUPCASEFLAG) || (isSug && c.nosuggest != 0 && Probe(a, c.nosuggest));
      return;
    }
    if pass != 0 {
      return;
    }
    skip := false;
    if c.compoundflag != 0 {
      rv, ctx := FlaggedFirst(d, c, word, i, ctx);
    }
    if rv.Some? {
      checkedPrefix := true;
    } else if wordnum == 0 && c.compoundbegin != 0 {
      rv, ctx := BoundaryFirst(d, c, word, i, c.compoundbegin, ctx);
      checkedPrefix := rv.Some?;
    } else if wordnum > 0 && c.compoundmiddle != 0 {
      rv, ctx := BoundaryFirst(d, c, word, i, c.compoundmiddle, ctx);
      checkedPrefix := rv.Some?;
    }
  }

  /** A first member that is no compound root of its own (not read with checkedPrefix) may not carry COMPOUNDEND, or at the start COMPOUNDMIDDLE, on its affixes. */
  predicate AffixesPlaced(c: Cfg, ctx: Ctx, checkedPrefix: bool, wordnum: int)
  {
    !(ContHas(ctx.pfx, c.compoundforbidflag) || ContHas(ctx.sfx, c.compoundforbidflag)) &&
    !(!checkedPrefix && (ContHas(ctx.pfx, c.compoundend) || ContHas(ctx.sfx, c.compoundend))) &&
    !(!checkedPrefix && wordnum == 0 && (ContHas(ctx.pfx, c.compoundmiddle) || ContHas(ctx.sfx, c.compoundmiddle)))
  }

  /**
   * The FIRST WORD part of one pass at split i: the member word[..i] is
   * read, the affixes' continuation classes are checked, a forbidden member
   * refuses the whole word, and the member must carry a flag that admits it
   * at this place, or be collected for a rule, and pass the triple-letter
   * and case tests at the boundary.
   */
  method FirstMember(d: Dict, c: Cfg, rwords: array<Option<HEntry>>, word: seq<char>, i: nat,
                     wordnum: int, wnum: nat, pass: nat, inUse: bool, isSug: bool, ctx0: Ctx)
    returns (f: First, inUse': bool, ctx: Ctx)
    requires DictOk(d) && rwords.Length == MAXWORDNUM && wnum < MAXWORDNUM
    requires 1 <= i < |word|
    modifies rwords
    ensures f.Member? ==> !Forbidden(c, isSug, f.rv) && wordnum <= f.wordnum <= wordnum + 1
    ensures f.Member? && Exact(d) ==> Reading(d, word, i, f.rv)
    ensures f.Member? && pass != 0 ==> !f.affixed && inUse' && f.rv in d.s.dict(word[..i])
    ensures f.Member? ==> !ContHas(ctx.pfx, c.compoundforbidflag) && !ContHas(ctx.sfx, c.compoundforbidflag)
    ensures pass == 0 || |c.defcpd| == 0 ==> unchanged(rwords) && inUse' == inUse
  {
    var skip, rv, affixed, checkedPrefix;
    skip, rv, affixed, checkedPrefix, inUse', ctx := FirstReading(d, c, rwords, word, i, wordnum, wnum, pass, inUse, isSug, ctx0);
    f := Skip;
    if skip {
      return;
    }
    if rv.Some? && !AffixesPlaced(c, ctx, checkedPrefix, wordnum) {
      rv := None;
    }
    if rv.None? {
      return;
    }
    var h := rv.value;
    if Forbidden(c, isSug, h) {
      return Refuse, inUse', ctx;
    }
    var wn := wordnum;
    if c.compoundroot != 0 && Probe(h.astr, c.compoundroot) {
      wn := wn + 1;
    }
    var placed := checkedPrefix || (inUse' && rwords[wnum].Some?) ||
                  (c.compoundflag != 0 && Probe(h.astr, c.compoundflag)) ||
                  (wordnum == 0 && c.compoundbegin != 0 && Probe(h.astr, c.compoundbegin)) ||
                  (wordnum > 0 && c.compoundmiddle != 0 && Probe(h.astr, c.compoundmiddle));
    var triple := c.checktriple && !inUse' && i < |word| && word[i - 1] == word[i] &&
                  ((i > 1 && word[i - 1] == word[i - 2]) || (i + 1 < |word| && word[i - 1] == word[i + 1]));
    var cased := c.checkcase && !inUse' && i < |word| && CpdCase(c.casing, word, i);
    if placed && !triple && !cased {
      f := Member(h, affixed, wn);
    }
  }

  // ---------------------------------------------------------------------
  // The second member

  /** The homonym test of the second member when no rule collects the members. */
  predicate SecondAdmits(c: Cfg, needaffix: Flag, h: HEntry)
  {
    !(needaffix != 0 && Probe(h.astr, needaffix)) &&
    ((c.compoundflag != 0 && Probe(h.astr, c.compoundflag)) || (c.compoundend != 0 && Probe(h.astr, c.compoundend)))
  }

  /**
   * The homonym loop of the second member: the first homonym with
   * COMPOUNDFLAG or COMPOUNDEND, or, while a rule collects the members, the
   * first one defcpd_check accepts as the last member (at `at`).
   */
  method SecondHomonym(c: Cfg, rwords: array<Option<HEntry>>, hs: seq<HEntry>, needaffix: Flag, at: nat, inUse: bool)
    returns (k: int)
    requires at < rwords.Length
    modifies rwords
    ensures -1 <= k < |hs|
    ensures !inUse ==> unchanged(rwords)
    ensures !inUse && k >= 0 ==> SecondAdmits(c, needaffix, hs[k])
    ensures !inUse ==> forall j :: 0 <= j < |hs| && (k < 0 || j < k) ==> !SecondAdmits(c, needaffix, hs[j])
    ensures |c.defcpd| == 0 ==> unchanged(rwords)
    ensures inUse && k >= 0 ==> rwords[at] == Some(hs[k]) && Named(c.defcpd, hs[k].astr)
  {
    k := 0;
    while k < |hs|
      invariant 0 <= k <= |hs|
      invariant !inUse ==> unchanged(rwords)
      invariant !inUse ==> forall j :: 0 <= j < k ==> !SecondAdmits(c, needaffix, hs[j])
      invariant |c.defcpd| == 0 ==> unchanged(rwords)
    {
      var h := hs[k];
      var ok := false;
      if needaffix != 0 && Probe(h.astr, needaffix) {
        ok := false;
      } else if !inUse {
        ok := SecondAdmits(c, needaffix, h);
      } else if |c.defcpd| > 0 {
        var used;
        ok, used := DefcpdCheck(rwords, true, false, at, h, c.defcpd, true);
      }
      if ok {
        return;
      }
      k := k + 1;
    }
    k := -1;
  }

  /** What one attempt at a split leads to: the compound is accepted with this first member, refused, or the search goes on. */
  datatype Step = Accept(h: HEntry) | Reject | Next

  /**
   * The last test of an accepted compound: a typical REP fault (with
   * CHECKCOMPOUNDREP) or a dictionary word pair makes it a simple word.
   */
  method Vetoes(d: Dict, c: Cfg, word: seq<char>, first: HEntry, ctx: Ctx) returns (s: Step)
    requires DictOk(d) && CfgOk(c)
    ensures s == Reject || s == Accept(first)
    ensures Exact(d) ==> (s == Accept(first) <==> !PairVetoed(d, ctx, word) && !(c.checkrep && RepVetoed(d, ctx, word, c.reps)))
  {
    assert word[..Clip(|word|, word)] == word;
    var rep := false;
    if c.checkrep {
      rep := CpdRep(d, ctx, word, |word|, c.reps);
    }
    if rep {
      return Reject;
    }
    var pair := CpdWordPair(d, ctx, word, |word|);
    s := if pair then Reject else Accept(first);
  }

  /** The first l characters of a and b agree, compared from the last one down, as the loop on --l does. */
  method SameHead(a: seq<char>, b: seq<char>, l: nat) returns (r: bool)
    requires l <= |a| && l <= |b|
    ensures r <==> a[..l] == b[..l]
  {
    var k := l;
    while k > 0
      invariant 0 <= k <= l
      invariant a[k..l] == b[k..l]
    {
      k := k - 1;
      if a[k] != b[k] {
        assert a[..l][k] != b[..l][k];
        return false;
      }
      assert a[k..l] == [a[k]] + a[k + 1..l];
      assert b[k..l] == [b[k]] + b[k + 1..l];
    }
    assert a[..l] == a[0..l] && b[..l] == b[0..l];
    return true;
  }

  /**
   * With FORBIDDENWORD set, the whole word read as one word (a homonym, or
   * an affixed form) that is forbidden and spells the first l characters of
   * the word refuses the compound.
   */
  method WholeForbidden(d: Dict, c: Cfg, word: seq<char>, l: nat, ctx: Ctx) returns (r: bool)
    requires DictOk(d) && 0 < |word|
    ensures r ==> l <= |word|
  {
    var hs := d.s.dict(word);
    var rv2: Option<HEntry> := if |hs| > 0 then Some(hs[0]) else None;
    if rv2.None? {
      var o := AffixCheck.AffixCheck(d.s, d.pt, d.st, PfxQuery(word, 0, |word|, NOT, 0), ctx);
      rv2 := o.rv;
    }
    r := false;
    if rv2.Some? && Probe(rv2.value.astr, c.forbiddenword) && l <= |word| && l <= |rv2.value.word| {
      r := SameHead(rv2.value.word, word, l);
    }
  }

  /**
   * The second member word[j..] as a root: a homonym with COMPOUNDFLAG or
   * COMPOUNDEND (or the last member a rule collects), within the word and
   * syllable limits, matching no CHECKCOMPOUNDPATTERN and, with
   * CHECKCOMPOUNDDUP, not the first member again. Next when the root
   * reading does not settle the split.
   */
  method SecondRoot(d: Dict, c: Cfg, rwords: array<Option<HEntry>>, word: seq<char>, j: nat, first: HEntry,
                    wordnum: int, numsyllable: int, wnum: nat, inUse: bool, isSug: bool, info: Info, ctx: Ctx)
    returns (s: Step, ghost vetted: bool)
    requires DictOk(d) && CfgOk(c) && rwords.Length == MAXWORDNUM
    requires 1 <= j < |word| && wnum + 1 < MAXWORDNUM
    modifies rwords
    ensures s.Accept? ==> s.h == first
    ensures s.Accept? && !vetted ==> |c.defcpd| > 0 && inUse
    ensures s.Accept? && vetted && Exact(d) ==> !PairVetoed(d, ctx, word) && !(c.checkrep && RepVetoed(d, ctx, word, c.reps))
    ensures |c.defcpd| == 0 ==> unchanged(rwords)
  {
    vetted := false;
    var hs := d.s.dict(word[j..]);
    var k := SecondHomonym(c, rwords, hs, d.s.needaffix, wnum + 1, inUse);
    var rv: Option<HEntry> := if k >= 0 then Some(hs[k]) else None;
    if rv.Some? && c.forceucase != 0 && Probe(rv.value.astr, c.forceucase) && !info.origcap {
      rv := None;
    }
    if rv.None? {
      return Next, vetted;
    }
    var h := rv.value;
    if inUse && rwords[wnum + 1].Some? {
      return Accept(first), vetted;
    }
    var wn := wordnum;
    if c.compoundroot != 0 && Probe(h.astr, c.compoundroot) {
      wn := wn + 1;
    }
    if Forbidden(c, isSug, h) {
      return Reject, vetted;
    }
    var ends := (c.compoundflag != 0 && Probe(h.astr, c.compoundflag)) || (c.compoundend != 0 && Probe(h.astr, c.compoundend));
    var syl := GetSyllable(c.cpdmaxsyllable, c.cpdvowels, h.word, 0, -1);
    var fits := (c.cpdwordmax == -1 || wn + 1 < c.cpdwordmax) || (c.cpdmaxsyllable != 0 && numsyllable + syl <= c.cpdmaxsyllable);
    var pat := false;
    if |c.checkcpd| > 0 {
      pat := CpdPatCheck(c.checkcpd, word, j, first, h, false);
    }
    if ends && fits && !pat && (!c.checkdup || h != first) {
      s := Vetoes(d, c, word, first, ctx);
      return s, true;
    }
    s := Next;
  }

  /**
   * The second member word[j..] as an affixed word: affix_check with
   * COMPOUNDFLAG, then with COMPOUNDEND, and, while a rule collects the
   * members, without a need flag and settled by defcpd_check. The same
   * limits, patterns and flags as for a root apply.
   */
  method SecondAffixed(d: Dict, c: Cfg, rwords: array<Option<HEntry>>, word: seq<char>, j: nat, first: HEntry,
                       affixed: bool, wordnum: int, numsyllable: int, wnum: nat, pass: nat, inUse: bool,
                       isSug: bool, info: Info, ctx0: Ctx)
    returns (s: Step, ghost vetted: bool, ctx: Ctx)
    requires DictOk(d) && CfgOk(c) && rwords.Length == MAXWORDNUM
    requires 1 <= j < |word| && wnum + 1 < MAXWORDNUM
    modifies rwords
    ensures s.Accept? ==> s.h == first
    ensures s.Accept? && !vetted ==> |c.defcpd| > 0 && inUse
    ensures s.Accept? && vetted && Exact(d) ==> !PairVetoed(d, ctx, word) && !(c.checkrep && RepVetoed(d, ctx, word, c.reps))
    ensures |c.defcpd| == 0 ==> unchanged(rwords)
  {
    vetted := false;
    ctx := ctx0.(sfx := None, sfxflag := 0);
    var rv: Option<HEntry> := None;
    if c.compoundflag != 0 && pass == 0 {
      var o := AffixCheck.AffixCheck(d.s, d.pt, d.st, PfxQuery(word, j, |word| - j, END, c.compoundflag), ctx);
      rv, ctx := o.rv, o.ctx;
    }
    if rv.None? && c.compoundend != 0 && pass == 0 {
      ctx := ctx.(sfx := None, pfx := None);
      var o := AffixCheck.AffixCheck(d.s, d.pt, d.st, PfxQuery(word, j, |word| - j, END, c.compoundend), ctx);
      rv, ctx := o.rv, o.ctx;
    }
    if rv.None? && |c.defcpd| > 0 && inUse {
      var o := AffixCheck.AffixCheck(d.s, d.pt, d.st, PfxQuery(word, j, |word| - j, END, 0), ctx);
      rv, ctx := o.rv, o.ctx;
      if rv.Some? {
        var m, used := DefcpdCheck(rwords, true, false, wnum + 1, rv.value, c.defcpd, true);
        if m {
          return Accept(first), vetted, ctx;
        }
      }
      rv := None;
    }
    if rv.None? {
      return Next, vetted, ctx;
    }
    var h := rv.value;
    var pat := false;
    if |c.checkcpd| > 0 {
      pat := CpdPatCheck(c.checkcpd, word, j, first, h, affixed);
    }
    if pat || ContHas(ctx.pfx, c.compoundforbidflag) || ContHas(ctx.sfx, c.compoundforbidflag) ||
       (c.forceucase != 0 && Probe(h.astr, c.forceucase) && !info.origcap) {
      return Next, vetted, ctx;
    }
    if Forbidden(c, isSug, h) {
      return Reject, vetted, ctx;
    }
    var wn := wordnum;
    if c.compoundroot != 0 && Probe(h.astr, c.compoundroot) {
      wn := wn + 1;
    }
    if ((c.cpdwordmax == -1 || wn + 1 < c.cpdwordmax) || (c.cpdmaxsyllable != 0 && numsyllable <= c.cpdmaxsyllable)) &&
       (!c.checkdup || h != first) {
      s := Vetoes(d, c, word, first, ctx);
      return s, true, ctx;
    }
    s := Next;
  }

  /**
   * The vetoes of a compound whose rest is a compound of its own, sub being
   * the root of the rest's first member: the word pair and REP tests on the
   * whole word, then on the part up to the end of that member (which only
   * moves the search on), then the whole word as a forbidden word.
   */
  method SubVetoes(d: Dict, c: Cfg, word: seq<char>, j: nat, first: HEntry, sub: HEntry, ctx: Ctx) returns (s: Step)
    requires DictOk(d) && CfgOk(c) && j <= |word| && 0 < |word|
    ensures s == Accept(first) || s == Reject || s == Next
    ensures s.Accept? && Exact(d) ==> !PairVetoed(d, ctx, word) && !(c.checkrep && RepVetoed(d, ctx, word, c.reps))
  {
    assert word[..Clip(|word|, word)] == word;
    var pair := CpdWordPair(d, ctx, word, |word|);
    if pair {
      return Reject;
    }
    if c.checkrep || c.forbiddenword != 0 {
      var rep := false;
      if c.checkrep {
        rep := CpdRep(d, ctx, word, |word|, c.reps);
      }
      if rep {
        return Reject;
      }
      var rw := sub.word;
      if IsPrefix(rw, word[j..]) {
        // the first part, up to the end of the sub-compound's first member
        var l := j + |rw|;
        var rep2 := false;
        if c.checkrep {
          rep2 := CpdRep(d, ctx, word, l, c.reps);
        }
        var pair2 := false;
        if !rep2 {
          pair2 := CpdWordPair(d, ctx, word, l);
        }
        if rep2 || pair2 {
          return Next;
        }
        if c.forbiddenword != 0 {
          var forb := WholeForbidden(d, c, word, l, ctx);
          if forb {
            return Reject;
          }
        }
      }
    }
    s := Accept(first);
  }

  /** The rest word[j..] as a compound of its own (the recursive call), unless the word is already a COMPOUND_2 part. */
  method SecondCompound(d: Dict, c: Cfg, rwords: array<Option<HEntry>>, timer: CpdTimer, clock: nat -> int,
                        word: seq<char>, j: nat, first: HEntry, affixed: bool, wordnum: int, numsyllable: int,
                        wnum: nat, inUse: bool, isSug: bool, info: Info, ctx: Ctx)
    returns (s: Step)
    requires DictOk(d) && CfgOk(c) && rwords.Length == MAXWORDNUM
    requires 1 <= j < |word|
    requires wnum <= wordnum && wnum + 1 < MAXWORDNUM
    modifies rwords, timer
    decreases |word|, 0
    ensures s == Accept(first) || s == Reject || s == Next
    ensures s.Accept? && Exact(d) ==> !PairVetoed(d, ctx, word) && !(c.checkrep && RepVetoed(d, ctx, word, c.reps))
    ensures |c.defcpd| == 0 ==> unchanged(rwords)
  {
    var sub: Option<HEntry> := None;
    if !info.compound2 && wordnum + 2 < MAXWORDNUM {
      ghost var t, sp, vc;
      sub, t, sp, vc := CompoundCheck(d, c, rwords, timer, clock, word[j..], wordnum + 1, numsyllable, wnum + 1, inUse, isSug, info, ctx);
      if sub.Some? && |c.checkcpd| > 0 {
        var pat := CpdPatCheck(c.checkcpd, word, j, first, sub.value, affixed);
        if pat {
          sub := None;
        }
      }
    }
    if sub.None? {
      return Next;
    }
    s := SubVetoes(d, c, word, j, first, sub.value, ctx);
  }

  /**
   * The NEXT WORD(S) part for the second member from position j: the rest
   * as a root, as an affixed word, or as a compound of its own, the first
   * that settles the split.
   */
  method SecondMember(d: Dict, c: Cfg, rwords: array<Option<HEntry>>, timer: CpdTimer, clock: nat -> int,
                      word: seq<char>, j: nat, first: HEntry, affixed: bool, wordnum: int, numsyllable: int,
                      wnum: nat, pass: nat, inUse: bool, isSug: bool, info: Info, ctx0: Ctx)
    returns (s: Step, ghost vetted: bool, ghost vctx: Ctx)
    requires DictOk(d) && CfgOk(c) && rwords.Length == MAXWORDNUM
    requires 1 <= j < |word|
    requires wnum <= wordnum && wnum + 1 < MAXWORDNUM
    modifies rwords, timer
    decreases |word|, 1
    ensures s.Accept? ==> s.h == first
    ensures s.Accept? && !vetted ==> |c.defcpd| > 0 && inUse
    ensures s.Accept? && vetted && Exact(d) ==> !PairVetoed(d, vctx, word) && !(c.checkrep && RepVetoed(d, vctx, word, c.reps))
    ensures |c.defcpd| == 0 ==> unchanged(rwords)
  {
    vctx := ctx0;
    s, vetted := SecondRoot(d, c, rwords, word, j, first, wordnum, numsyllable, wnum, inUse, isSug, info, ctx0);
    if !s.Next? {
      return;
    }
    var ctx;
    s, vetted, ctx := SecondAffixed(d, c, rwords, word, j, first, affixed, wordnum, numsyllable, wnum, pass, inUse, isSug, info, ctx0);
    if !s.Next? {
      vctx := ctx;
      return;
    }
    s := SecondCompound(d, c, rwords, timer, clock, word, j, first, affixed, wordnum, numsyllable, wnum, inUse, isSug, info, ctx);
    vetted, vctx := true, ctx;
  }

  /**
   * The striple loop: the second member from i, and, with
   * SIMPLIFIEDTRIPLE after a doubled letter before i, once more from i - 1
   * ("fahrt" rather than "ahrt" in "Schiffahrt").
   */
  method SecondMembers(d: Dict, c: Cfg, rwords: array<Option<HEntry>>, timer: CpdTimer, clock: nat -> int,
                       word: seq<char>, i: nat, first: HEntry, affixed: bool, wordnum: int, numsyllable: int,
                       wnum: nat, pass: nat, inUse: bool, isSug: bool, info: Info, ctx: Ctx)
    returns (s: Step, ghost vetted: bool, ghost vctx: Ctx)
    requires DictOk(d) && CfgOk(c) && rwords.Length == MAXWORDNUM
    requires 1 <= i < |word|
    requires wnum <= wordnum && wnum + 1 < MAXWORDNUM
    modifies rwords, timer
    decreases |word|, 2
    ensures s.Accept? ==> s.h == first
    ensures s.Accept? && !vetted ==> |c.defcpd| > 0 && inUse
    ensures s.Accept? && vetted && Exact(d) ==> !PairVetoed(d, vctx, word) && !(c.checkrep && RepVetoed(d, vctx, word, c.reps))
    ensures |c.defcpd| == 0 ==> unchanged(rwords)
  {
    var striple, checked := false, false;
    var j := i;
    while true
      invariant j == i && !checked && (striple ==> i > 2 && c.simplifiedtriple)
      invariant |c.defcpd| == 0 ==> unchanged(rwords)
      decreases 2 - (if striple then 1 else 0)
    {
      if c.simplifiedtriple {
        if striple {
          checked := true;
          j := i - 1;
        } else if i > 2 && i <= |word| && word[i - 1] == word[i - 2] {
          striple := true;
        }
      }
      s, vetted, vctx := SecondMember(d, c, rwords, timer, clock, word, j, first, affixed, wordnum, numsyllable,
                                      wnum, pass, inUse, isSug, info, ctx);
      if !s.Next? || !(striple && !checked) {
        return;
      }
    }
  }

  /**
   * One pass of the split at i (one round of the pattern loop): refused
   * at once when the time limit has passed, then the first member, then
   * the second.
   */
  method TrySplit(d: Dict, c: Cfg, rwords: array<Option<HEntry>>, timer: CpdTimer, clock: nat -> int,
                  word: seq<char>, i: nat, wordnum: int, numsyllable: int, wnum: nat, pass: nat,
                  inUse: bool, isSug: bool, info: Info, ctx: Ctx)
    returns (s: Step, ghost vetted: bool, ghost vctx: Ctx)
    requires DictOk(d) && CfgOk(c) && rwords.Length == MAXWORDNUM
    requires 1 <= i < |word|
    requires wnum <= wordnum && wordnum + 1 < MAXWORDNUM
    modifies rwords, timer
    decreases |word|, 3
    ensures old(timer.expired) ==> s == Reject && timer.expired
    ensures s.Accept? ==> !Forbidden(c, isSug, s.h) && (Exact(d) ==> Reading(d, word, i, s.h))
    ensures s.Accept? && !vetted ==> |c.defcpd| > 0
    ensures s.Accept? && vetted && Exact(d) ==> !PairVetoed(d, vctx, word) && !(c.checkrep && RepVetoed(d, vctx, word, c.reps))
    ensures |c.defcpd| == 0 ==> unchanged(rwords)
  {
    vetted, vctx := false, ctx;
    if timer.expired {
      return Reject, vetted, vctx;
    }
    var f, inUse', ctx1 := FirstMember(d, c, rwords, word, i, wordnum, wnum, pass, inUse, isSug, ctx);
    if f.Refuse? {
      return Reject, vetted, vctx;
    }
    if f.Skip? {
      return Next, vetted, vctx;
    }
    s, vetted, vctx := SecondMembers(d, c, rwords, timer, clock, word, i, f.rv, f.affixed, f.wordnum, numsyllable,
                                     wnum, pass, inUse', isSug, info, ctx1);
  }

  /**
   * The pattern loop at split i: the first pass, and the COMPOUNDRULE
   * pass after it when the word is a whole word (wordnum 0) and there are
   * rules. t records the split once for every pass that found the time
   * limit unexpired.
   */
  method SplitAt(d: Dict, c: Cfg, rwords: array<Option<HEntry>>, timer: CpdTimer, clock: nat -> int,
                 word: seq<char>, i: nat, wordnum: int, numsyllable: int, wnum: nat, inUse: bool,
                 isSug: bool, info: Info, ctx: Ctx)
    returns (s: Step, ghost t: seq<nat>, ghost vetted: bool, ghost vctx: Ctx)
    requires DictOk(d) && CfgOk(c) && rwords.Length == MAXWORDNUM
    requires 1 <= i < |word|
    requires wnum <= wordnum && wordnum + 1 < MAXWORDNUM
    modifies rwords, timer
    decreases |word|, 4
    ensures forall k :: 0 <= k < |t| ==> t[k] == i
    ensures old(timer.expired) ==> s == Reject && t == [] && timer.expired
    ensures s.Accept? ==> |t| > 0 && !Forbidden(c, isSug, s.h) && (Exact(d) ==> Reading(d, word, i, s.h))
    ensures s.Accept? && !vetted ==> |c.defcpd| > 0
    ensures s.Accept? && vetted && Exact(d) ==> !PairVetoed(d, vctx, word) && !(c.checkrep && RepVetoed(d, vctx, word, c.reps))
    ensures |c.defcpd| == 0 ==> unchanged(rwords)
  {
    t := [];
    var pass := if inUse then 1 else 0;
    while true
      invariant pass <= 1
      invariant forall k :: 0 <= k < |t| ==> t[k] == i
      invariant old(timer.expired) ==> t == [] && timer.expired
      invariant |c.defcpd| == 0 ==> unchanged(rwords)
      decreases 1 - pass
    {
      if !timer.expired {
        t := t + [i];
      }
      s, vetted, vctx := TrySplit(d, c, rwords, timer, clock, word, i, wordnum, numsyllable, wnum, pass,
                                  inUse, isSug, info, ctx);
      if !s.Next? || !(|c.defcpd| > 0 && wordnum == 0 && pass == 0) {
        return;
      }
      pass := 1;
    }
  }

  /** The split positions lie in [lo, hi) and come in order. */
  ghost predicate Ascending(tried: seq<nat>, lo: int, hi: int)
  {
    (forall k :: 0 <= k < |tried| ==> lo <= tried[k] < hi) &&
    (forall k, l :: 0 <= k < l < |tried| ==> tried[k] <= tried[l])
  }

  /** Splits at i added to positions below i keep them in order, below i + 1. */
  lemma TriedGrows(tried: seq<nat>, t: seq<nat>, lo: int, i: nat)
    requires Ascending(tried, lo, i)
    requires lo <= i && forall k :: 0 <= k < |t| ==> t[k] == i
    ensures Ascending(tried + t, lo, i + 1)
  {
  }

  /** Ascending over a wider range. */
  lemma AscendingWiden(tried: seq<nat>, lo: int, hi: int, hi': int)
    requires Ascending(tried, lo, hi) && hi <= hi'
    ensures Ascending(tried, lo, hi')
  {
  }

  /**
   * compound_check: the split positions cpdmin <= i < |word| - cpdmin + 1
   * are tried from the left, and the first that makes a compound gives the
   * result, the root of the first member. A nested search started after
   * the time limit has passed finds nothing.
   *
   * tried lists the split positions whose first member was looked up, vctx
   * the context the vetoes of the accepted compound were given.
   */
  method CompoundCheck(d: Dict, c: Cfg, rwords: array<Option<HEntry>>, timer: CpdTimer, clock: nat -> int,
                       word: seq<char>, wordnum: int, numsyllable: int, wnum: nat, inUse: bool,
                       isSug: bool, info: Info, ctx: Ctx)
    returns (r: Option<HEntry>, ghost tried: seq<nat>, ghost split: nat, ghost vctx: Ctx)
    requires DictOk(d) && CfgOk(c) && rwords.Length == MAXWORDNUM
    requires wnum <= wordnum && wordnum + 1 < MAXWORDNUM
    modifies rwords, timer
    decreases |word|, 5
    ensures wordnum > 0 && (old(timer.expired) || clock(old(timer.polls)) - old(timer.start) > TIMELIMIT) ==> r.None? && tried == []
    ensures wordnum > 0 && old(timer.expired) ==> timer.expired
    ensures Ascending(tried, c.cpdmin, |word| - c.cpdmin + 1)
    ensures r.Some? ==> split in tried && !Forbidden(c, isSug, r.value)
    ensures r.Some? && Exact(d) ==> split <= |word| && Reading(d, word, split, r.value)
    ensures r.Some? && |c.defcpd| == 0 && Exact(d) ==> !PairVetoed(d, vctx, word) && !(c.checkrep && RepVetoed(d, vctx, word, c.reps))
    ensures |c.defcpd| == 0 ==> unchanged(rwords)
  {
    hide DictOk, Exact, Reading, PairVetoed, RepVetoed, Forbidden;
    ghost var late := wordnum > 0 && (old(timer.expired) || clock(old(timer.polls)) - old(timer.start) > TIMELIMIT);
    timer.Poll(wordnum, clock);
    var (cmin, cmax) := CMinMax(c.cpdmin, |word|);
    r, tried, split, vctx := None, [], 0, ctx;
    var i := cmin;
    while i < cmax
      invariant cmin <= i && (i <= cmax || tried == [])
      invariant Ascending(tried, cmin, i)
      invariant late ==> timer.expired && tried == []
      invariant |c.defcpd| == 0 ==> unchanged(rwords)
      decreases cmax - i
    {
      var s, t, vetted, vc := SplitAt(d, c, rwords, timer, clock, word, i, wordnum, numsyllable, wnum, inUse, isSug, info, ctx);
      TriedGrows(tried, t, cmin, i);
      tried := tried + t;
      if s.Accept? {
        AscendingWiden(tried, cmin, i + 1, cmax);
        assert tried[|tried| - 1] == i;
        return Some(s.h), tried, i, vc;
      }
      if s.Reject? {
        AscendingWiden(tried, cmin, i + 1, cmax);
        return None, tried, split, vctx;
      }
      i := i + 1;
    }
  }
}
