/**
 * checkword (SuggestMgr.cs): the dictionary test every suggestion
 * candidate goes through. In compound mode (cpdsuggest >= 1) a candidate
 * is good only as a compound; otherwise it must be a dictionary word, or
 * a root the affix validators find, that no forbidding flag spoils.
 * The answer is 0 (rejected), 1 (a word), 2 (a word that may be a
 * compound member, with a prefix or suffix), or 3 (a compound, or such a
 * member with neither).
 */
module SuggestCheck {
  import opened Base
  import opened Flags
  import opened AffixEntry
  import opened AffixIndex
  import opened AffixCheck
  import opened CompoundVetoes
  import opened Compound
  import opened Countdown

  /** The affix settings checkword reads beyond the compound ones; flags are 0 when unset. */
  datatype SugCfg = SugCfg(cpd: Cfg, substandard: Flag)

  /** get_compound: some compounding is configured. */
  predicate GetCompound(c: Cfg)
  {
    c.compoundflag != 0 || c.compoundbegin != 0 || |c.defcpd| > 0
  }

  /** The first homonym lookup returns, if any. */
  function Head(hs: seq<HEntry>): (r: Option<HEntry>)
    ensures r.Some? <==> |hs| > 0
    ensures r.Some? ==> r.value == hs[0]
  {
    if |hs| == 0 then None else Some(hs[0])
  }

  /** The dictionary's own entry for the word bars it from suggestions: forbidden, NOSUGGEST or SUBSTANDARD. */
  predicate Barred(k: SugCfg, h: HEntry)
  {
    Probe(h.astr, k.cpd.forbiddenword) ||
    (k.cpd.nosuggest != 0 && Probe(h.astr, k.cpd.nosuggest)) ||
    (k.substandard != 0 && Probe(h.astr, k.substandard))
  }

  /** A homonym the direct lookup passes over: NEEDAFFIX, ONLYUPCASE or ONLYINCOMPOUND. */
  predicate Passed(s: Settings, h: HEntry)
  {
    (s.needaffix != 0 && Probe(h.astr, s.needaffix)) ||
    Probe(h.astr, ONLYUPCASEFLAG) ||
    (s.onlyincompound != 0 && Probe(h.astr, s.onlyincompound))
  }

  /** The first homonym from position i on that the lookup does not pass over. */
  function Unpassed(s: Settings, hs: seq<HEntry>, i: nat): (r: Option<HEntry>)
    requires i <= |hs|
    ensures r.Some? ==> r.value in hs[i..] && !Passed(s, r.value)
    ensures r.None? ==> forall j :: i <= j < |hs| ==> Passed(s, hs[j])
    decreases |hs| - i
  {
    if i == |hs| then None
    else if !Passed(s, hs[i]) then Some(hs[i])
    else Unpassed(s, hs, i + 1)
  }

  /** The root checkword settles on spoils the candidate: forbidden, ONLYUPCASE, NOSUGGEST or ONLYINCOMPOUND. */
  predicate Spoiled(k: SugCfg, s: Settings, h: HEntry)
  {
    Probe(h.astr, k.cpd.forbiddenword) || Probe(h.astr, ONLYUPCASEFLAG) ||
    (k.cpd.nosuggest != 0 && Probe(h.astr, k.cpd.nosuggest)) ||
    (s.onlyincompound != 0 && Probe(h.astr, s.onlyincompound))
  }

  /** The queries of the non-compound path, all over the whole word, with no need flag. */
  function PfxQ(word: seq<char>): PfxQuery { PfxQuery(word, 0, |word|, NOT, 0) }
  function SfxQ(word: seq<char>): SfxQuery { SfxQuery(word, 0, |word|, false, None, 0, 0, NOT) }
  function TwoQ(word: seq<char>): TwoQuery { TwoQuery(word, 0, |word|, false, None, 0) }

  /** The first reading: a direct homonym not passed over or, only when the lookup found nothing, a prefixed root. */
  ghost function DirectOf(d: Dict, word: seq<char>, ctx: Ctx): Outcome
  {
    var hs := d.s.dict(word);
    if |hs| > 0 then Outcome(Unpassed(d.s, hs, 0), ctx) else PrefixCheckSpec(d.s, d.pt, d.st, PfxQ(word), ctx)
  }

  /** The readings tried when there is no first one: a suffixed root, then, with continuation classes, the two-suffix and prefix+two-suffix ones. */
  ghost function AffixedOf(d: Dict, word: seq<char>, ctx: Ctx): Option<HEntry>
  {
    var sx := SuffixCheckSpec(d.s, d.st, SfxQ(word), ctx);
    if sx.Some? then Some(sx.value.he)
    else if !d.s.havecontclass then None
    else
      var tw := SuffixCheckTwoSpec(d.s, d.st, TwoQ(word), ctx);
      if tw.Some? then Some(tw.value.he)
      else PrefixCheckTwoSpec(d.s, d.pt, d.st, PfxQ(word), ctx).rv
  }

  /** The root the non-compound path settles on, and whether it came before suffix_check (nosuffix). */
  ghost function RootOf(d: Dict, word: seq<char>, ctx: Ctx): (Option<HEntry>, bool)
  {
    var o := DirectOf(d, word, ctx);
    if o.rv.Some? then (o.rv, true) else (AffixedOf(d, word, o.ctx), false)
  }

  /** The answer of the non-compound path. */
  ghost function PlainAnswer(d: Dict, k: SugCfg, word: seq<char>, ctx: Ctx): nat
  {
    var h0 := Head(d.s.dict(word));
    if h0.Some? && h0.value.astr.Some? && Barred(k, h0.value) then 0
    else
      var (rv, nosuffix) := RootOf(d, word, ctx);
      if rv.None? || Spoiled(k, d.s, rv.value) then 0
      else if k.cpd.compoundflag != 0 && Probe(rv.value.astr, k.cpd.compoundflag) then (if nosuffix then 3 else 2)
      else 1
  }

  /** The direct-lookup step: the homonyms passed over are skipped one by one. */
  method SkipPassed(s: Settings, hs: seq<HEntry>) returns (rv: Option<HEntry>)
    ensures rv == Unpassed(s, hs, 0)
  {
    var i := 0;
    while i < |hs| && Passed(s, hs[i])
      invariant 0 <= i <= |hs|
      invariant Unpassed(s, hs, i) == Unpassed(s, hs, 0)
    {
      i := i + 1;
    }
    rv := if i < |hs| then Some(hs[i]) else None;
  }

  /** The lookup, or prefix_check when it finds nothing. */
  method Direct(d: Dict, word: seq<char>, ctx: Ctx) returns (o: Outcome)
    requires DictOk(d) && |word| > 0
    ensures Exact(d) ==> o == DirectOf(d, word, ctx)
  {
    var hs := d.s.dict(word);
    if |hs| > 0 {
      var rv := SkipPassed(d.s, hs);
      o := Outcome(rv, ctx);
    } else {
      o := PrefixCheck(d.s, d.pt, d.st, PfxQ(word), ctx);
    }
  }

  /** suffix_check, then, with continuation classes, suffix_check_twosfx and prefix_check_twosfx. */
  method Affixed(d: Dict, word: seq<char>, ctx: Ctx) returns (rv: Option<HEntry>)
    requires DictOk(d) && |word| > 0
    ensures Exact(d) ==> rv == AffixedOf(d, word, ctx)
  {
    var sx := SuffixCheck(d.s, d.st, SfxQ(word), ctx);
    if sx.Some? {
      return Some(sx.value.he);
    }
    if !d.s.havecontclass {
      return None;
    }
    var tw := SuffixCheckTwo(d.s, d.st, TwoQ(word), ctx);
    if tw.Some? {
      return Some(tw.value.he);
    }
    var po := PrefixCheckTwo(d.s, d.pt, d.st, PfxQ(word), ctx);
    rv := po.rv;
  }

  /** The root of the non-compound path: the lookup, then the affixed readings when it finds nothing. */
  method Root(d: Dict, word: seq<char>, ctx: Ctx) returns (rv: Option<HEntry>, nosuffix: bool)
    requires DictOk(d) && |word| > 0
    ensures Exact(d) ==> (rv, nosuffix) == RootOf(d, word, ctx)
  {
    var o := Direct(d, word, ctx);
    rv := o.rv;
    nosuffix := rv.Some?;
    if rv.None? {
      rv := Affixed(d, word, o.ctx);
    }
  }

  /** The non-compound path of checkword: on sorted flag sets its answer is PlainAnswer. */
  method PlainCheck(d: Dict, k: SugCfg, word: seq<char>, ctx: Ctx) returns (r: nat)
    requires DictOk(d) && |word| > 0
    ensures r <= 3
    ensures Exact(d) ==> r == PlainAnswer(d, k, word, ctx)
  {
    hide DirectOf, AffixedOf, PrefixCheckSpec, SuffixCheckSpec, SuffixCheckTwoSpec, PrefixCheckTwoSpec, Unpassed, DictOk;
    var hs := d.s.dict(word);
    if |hs| > 0 && hs[0].astr.Some? && Barred(k, hs[0]) {
      return 0;
    }
    var rv, nosuffix := Root(d, word, ctx);
    if rv.None? || (rv.value.astr.Some? && Spoiled(k, d.s, rv.value)) {
      return 0;
    }
    if k.cpd.compoundflag != 0 && Probe(rv.value.astr, k.cpd.compoundflag) {
      return if nosuffix then 3 else 2;
    }
    return 1;
  }

  /** A dictionary word whose first homonym carries no flags is accepted as a plain word. */
  lemma BareWordAccepted(d: Dict, k: SugCfg, word: seq<char>, ctx: Ctx)
    requires |d.s.dict(word)| > 0 && d.s.dict(word)[0].astr.None?
    ensures PlainAnswer(d, k, word, ctx) == 1
  {
    assert Unpassed(d.s, d.s.dict(word), 0) == Some(d.s.dict(word)[0]);
  }

  /** An accepted candidate has a root that nothing spoils, and its lookup entry is not barred. */
  lemma AcceptedRoot(d: Dict, k: SugCfg, word: seq<char>, ctx: Ctx)
    requires PlainAnswer(d, k, word, ctx) != 0
    ensures var (rv, nosuffix) := RootOf(d, word, ctx);
      rv.Some? && !Spoiled(k, d.s, rv.value) &&
      (nosuffix ==> rv.value in d.s.dict(word) || PrefixCheckSpec(d.s, d.pt, d.st, PfxQ(word), ctx).rv == rv)
    ensures |d.s.dict(word)| > 0 ==> !Barred(k, d.s.dict(word)[0]) || d.s.dict(word)[0].astr.None?
  {
  }

  /** The lookup's own entry does not stop a compound candidate: none, no flags, or neither forbidden nor NOSUGGEST. */
  predicate CompoundClear(k: SugCfg, h0: Option<HEntry>)
  {
    h0.None? || h0.value.astr.None? ||
    !(Probe(h0.value.astr, k.cpd.forbiddenword) || (k.cpd.nosuggest != 0 && Probe(h0.value.astr, k.cpd.nosuggest)))
  }

  /**
   * checkword(word, cpdsuggest, timer). The optional countdown timer is read
   * at elapsedMs; the compound search uses the context's buffer rwords, its
   * timer cpdTimer and the clock.
   */
  method CheckWord(d: Dict, k: SugCfg, word: seq<char>, cpdsuggest: int, timer: CountdownTimer?, elapsedMs: int,
                   rwords: array<Option<HEntry>>, cpdTimer: CpdTimer, clock: nat -> int, ctx: Ctx)
    returns (r: nat, ghost root: Option<HEntry>, ghost split: nat)
    requires DictOk(d) && CfgOk(k.cpd) && rwords.Length == MAXWORDNUM
    requires timer != null ==> timer.Valid()
    requires cpdsuggest >= 1 || |word| > 0
    modifies timer, rwords, cpdTimer
    ensures timer != null ==> timer.Valid() && timer.countdown == Tick(old(timer.countdown), elapsedMs).0
    ensures r <= 3
    ensures timer != null && Tick(old(timer.countdown), elapsedMs).1 ==> r == 0
    ensures cpdsuggest >= 1 ==> r == 0 || r == 3
    ensures cpdsuggest >= 1 && r == 3 ==>
      GetCompound(k.cpd) && CompoundClear(k, Head(d.s.dict(word))) &&
      root.Some? && !Forbidden(k.cpd, true, root.value) && 0 < split <= |word| &&
      (Exact(d) ==> Reading(d, word, split, root.value))
    ensures cpdsuggest >= 1 && !GetCompound(k.cpd) ==> r == 0
    ensures cpdsuggest < 1 && (timer == null || !Tick(old(timer.countdown), elapsedMs).1) && Exact(d) ==>
      r == PlainAnswer(d, k, word, ctx)
  {
    root, split := None, 0;
    if timer != null {
      var expired := timer.CheckExpired(elapsedMs);
      if expired {
        return 0, root, split;
      }
    }
    if cpdsuggest >= 1 {
      if GetCompound(k.cpd) {
        var info := Info(false, cpdsuggest == 1);
        var rv, tried, sp, vctx := CompoundCheck(d, k.cpd, rwords, cpdTimer, clock, word, 0, 0, 0, false, true, info, ctx);
        if rv.Some? && CompoundClear(k, Head(d.s.dict(word))) {
          return 3, rv, sp;
        }
      }
      return 0, root, split;
    }
    r := PlainCheck(d, k, word, ctx);
  }
}
