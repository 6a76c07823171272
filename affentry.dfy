/**
 * Affix entries (PfxEntry.cs, SfxEntry.cs): applying a rule to a stem
 * (`add`), and undoing it on a word to find the dictionary stems it may come
 * from (`checkword`, `get_next_homonym`).
 *
 * The dictionary is an oracle: `Lookup` maps a stem to its homonym chain
 * (the entry `lookup` returns followed by its `next_homonym` links), so the
 * do/while loops over `next_homonym` become loops over a sequence.
 */
module AffixEntry {
  import opened Base
  import opened Flags
  import opened Conditions
  import opened Extensions

  /**
   * The fields of an AffEntry the engine reads: the affix text `appnd`, the
   * characters `strip` it replaces, the condition pattern with its atom
   * count, whether it combines with affixes of the other kind (XPRODUCT),
   * its flag and its continuation classes (the flags it carries itself).
   */
  datatype AffEntry = AffEntry(appnd: seq<char>, strip: seq<char>,
                               numconds: nat, conds: seq<char>,
                               cross: bool, aflag: Flag,
                               contclass: Option<seq<Flag>>)

  /** A dictionary entry: the stem and its flags (`astr`, possibly null). */
  datatype HEntry = HEntry(word: seq<char>, astr: Option<seq<Flag>>)

  /** The homonym chain of a stem: empty when `lookup` returns null. */
  type Lookup = seq<char> -> seq<HEntry>

  /** A usable entry: a non-empty condition count comes with a pattern to read. */
  predicate EntryOk(e: AffEntry)
  {
    e.numconds > 0 ==> |e.conds| > 0
  }

  predicate SortedOpt(a: Option<seq<Flag>>)
  {
    a.None? || Sorted(a.value)
  }

  /** Every flag set in a homonym chain is sorted, as the loader leaves them. */
  predicate ChainSorted(hs: seq<HEntry>)
  {
    forall i :: 0 <= i < |hs| ==> SortedOpt(hs[i].astr)
  }

  ghost predicate DictSorted(dict: Lookup)
  {
    forall w :: ChainSorted(dict(w))
  }

  /** The prefix entry a suffix is checked under, if any: its flags are sorted too. */
  predicate PfxSorted(ep: Option<AffEntry>)
  {
    ep.Some? ==> SortedOpt(ep.value.contclass)
  }

  // ---------------------------------------------------------------------
  // Suffixes

  /**
   * SfxEntry.add: the rule applies to words longer than `strip` (or to the
   * empty word under FULLSTRIP) that have at least numconds characters,
   * satisfy the condition and end with `strip`; the result is the word with
   * `strip` replaced by `appnd`.
   */
  function SfxAdd(e: AffEntry, fullstrip: bool, word: seq<char>): (r: Option<seq<char>>)
    ensures r.Some? <==>
      (|word| > |e.strip| || (|word| == 0 && fullstrip)) && |word| >= e.numconds &&
      SfxTest(e.conds, e.numconds, word) && IsSuffix(e.strip, word)
    ensures r.Some? ==>
      IsSuffix(e.appnd, r.value) &&
      r.value[..|r.value| - |e.appnd|] + e.strip == word
  {
    var len := |word|;
    if (len > |e.strip| || (len == 0 && fullstrip)) && len >= e.numconds &&
       SfxTest(e.conds, e.numconds, word) &&
       (|e.strip| == 0 || (len >= |e.strip| && word[len - |e.strip|..] == e.strip))
    then
      var r := word[..len - |e.strip|] + e.appnd;
      assert r[..|r| - |e.appnd|] == word[..len - |e.strip|];
      assert r[|r| - |e.appnd|..] == e.appnd;
      Some(r)
    else None
  }

  /**
   * The stem-length test of SfxEntry.checkword: the word without the suffix
   * is non-empty (or empty under FULLSTRIP), and with `strip` put back it is
   * long enough for the condition.
   */
  predicate SfxStemFits(e: AffEntry, fullstrip: bool, len: int)
  {
    var tmpl := len - |e.appnd|;
    (tmpl > 0 || (tmpl == 0 && fullstrip)) && tmpl + |e.strip| >= e.numconds
  }

  /** The candidate stem: word[start..start+len] without its last |appnd| characters, plus `strip`. */
  function SfxStem(e: AffEntry, word: seq<char>, start: nat, len: nat): (r: seq<char>)
    requires start + len <= |word| && |e.appnd| <= len
    ensures |r| == len - |e.appnd| + |e.strip|
    ensures r[..len - |e.appnd|] == word[start..start + len - |e.appnd|] && IsSuffix(e.strip, r)
  {
    var r := word[start..start + len - |e.appnd|] + e.strip;
    assert r[|r| - |e.strip|..] == e.strip;
    r
  }

  /**
   * The homonym test of SfxEntry.checkword: the suffix flag is on the stem
   * (or allowed by the governing prefix), a cross product is licensed by
   * the prefix flag, and the continuation class, bad flag and needed flag
   * tests pass.
   */
  predicate SfxHomonymOk(e: AffEntry, h: HEntry, xprod: bool, ep: Option<AffEntry>,
                         cclass: Flag, needflag: Flag, badflag: Flag)
  {
    (Has(h.astr, e.aflag) || (ep.Some? && Has(ep.value.contclass, e.aflag))) &&
    (!xprod || (ep.Some? && Has(h.astr, ep.value.aflag)) ||
     (ep.Some? && Has(e.contclass, ep.value.aflag))) &&
    (cclass == 0 || Has(e.contclass, cclass)) &&
    (badflag == 0 || !Has(h.astr, badflag)) &&
    (needflag == 0 || Has(h.astr, needflag) || Has(e.contclass, needflag))
  }

  /** What SfxEntry.checkword answers, read over the whole homonym chain of the stem. */
  function SfxCheckWordSpec(e: AffEntry, fullstrip: bool, dict: Lookup, word: seq<char>,
                            start: nat, len: nat, xprod: bool, ep: Option<AffEntry>,
                            cclass: Flag, needflag: Flag, badflag: Flag): (r: Option<HEntry>)
    requires start + len <= |word|
    ensures r.Some? ==>
      !(xprod && !e.cross) && SfxStemFits(e, fullstrip, len) &&
      SfxTest(e.conds, e.numconds, SfxStem(e, word, start, len)) &&
      r.value in dict(SfxStem(e, word, start, len)) &&
      SfxHomonymOk(e, r.value, xprod, ep, cclass, needflag, badflag)
  {
    if xprod && !e.cross then None
    else if !SfxStemFits(e, fullstrip, len) then None
    else
      var stem := SfxStem(e, word, start, len);
      if !SfxTest(e.conds, e.numconds, stem) then None
      else FirstWhere((h: HEntry) => SfxHomonymOk(e, h, xprod, ep, cclass, needflag, badflag), dict(stem))
  }

  /**
   * SfxEntry.checkword: builds the stem in a fresh buffer, tests the
   * condition and walks the homonym chain with TESTAFF. On sorted flag sets
   * the answer is SfxCheckWordSpec.
   */
  method SfxCheckWord(e: AffEntry, fullstrip: bool, dict: Lookup, word: seq<char>,
                      start: nat, len: nat, xprod: bool, ep: Option<AffEntry>,
                      cclass: Flag, needflag: Flag, badflag: Flag) returns (r: Option<HEntry>)
    requires EntryOk(e) && start + len <= |word|
    ensures r.Some? ==> SfxStemFits(e, fullstrip, len) && r.value in dict(SfxStem(e, word, start, len))
    ensures SortedOpt(e.contclass) && PfxSorted(ep) && DictSorted(dict) ==>
      r == SfxCheckWordSpec(e, fullstrip, dict, word, start, len, xprod, ep, cclass, needflag, badflag)
  {
    if xprod && !e.cross {
      return None;
    }
    var tmpl := len - |e.appnd|;
    if !((tmpl > 0 || (tmpl == 0 && fullstrip)) && tmpl + |e.strip| >= e.numconds) {
      return None;
    }
    var stem := SfxBuildStem(e, word, start, len);
    var pass := SuffixTestCondition(e.conds, e.numconds, stem);
    if !pass {
      return None;
    }
    ghost var sorted := SortedOpt(e.contclass) && PfxSorted(ep) && DictSorted(dict);
    if sorted {
      assert ChainSorted(dict(stem));
    }
    r := SfxHomonymSearch(e, dict(stem), xprod, ep, cclass, needflag, badflag);
  }

  /** The stem buffer of SfxEntry.checkword: the word without the suffix, then `strip`. */
  method SfxBuildStem(e: AffEntry, word: seq<char>, start: nat, len: nat) returns (stem: seq<char>)
    requires start + len <= |word| && |e.appnd| <= len
    ensures stem == SfxStem(e, word, start, len)
  {
    var tmpl := len - |e.appnd|;
    var stripl := |e.strip|;
    var tmpstring := new char[tmpl + stripl];
    var ok := CopyTo(Str(word), start, tmpstring, 0, tmpl);
    if stripl > 0 {
      ok := CopyTo(Str(e.strip), 0, tmpstring, tmpl, stripl);
    }
    stem := tmpstring[..];
    assert stem[..tmpl] == tmpstring[0..tmpl];
    assert stem[tmpl..] == tmpstring[tmpl..tmpl + stripl];
    assert stem == stem[..tmpl] + stem[tmpl..];
  }

  /** The do/while loop of SfxEntry.checkword over the homonym chain: the first homonym passing the test. */
  method SfxHomonymSearch(e: AffEntry, hs: seq<HEntry>, xprod: bool, ep: Option<AffEntry>,
                          cclass: Flag, needflag: Flag, badflag: Flag) returns (r: Option<HEntry>)
    ensures r.Some? ==> r.value in hs
    ensures SortedOpt(e.contclass) && PfxSorted(ep) && ChainSorted(hs) ==>
      r == FirstWhere((h: HEntry) => SfxHomonymOk(e, h, xprod, ep, cclass, needflag, badflag), hs)
  {
    ghost var p := (h: HEntry) => SfxHomonymOk(e, h, xprod, ep, cclass, needflag, badflag);
    ghost var sorted := SortedOpt(e.contclass) && PfxSorted(ep) && ChainSorted(hs);
    var i := 0;
    while i < |hs|
      invariant 0 <= i <= |hs|
      invariant sorted ==> forall j :: 0 <= j < i ==> !p(hs[j])
    {
      var he := hs[i];
      var ok := HomonymTest(e, he, xprod, ep, cclass, needflag, badflag);
      if ok {
        if sorted {
          FirstWhereAt(p, hs, i);
        }
        return Some(he);
      }
      i := i + 1;
    }
    if sorted {
      FirstWhereNone(p, hs);
    }
    return None;
  }

  /** The flag test of SfxEntry.checkword, one homonym, with TESTAFF. */
  method HomonymTest(e: AffEntry, h: HEntry, xprod: bool, ep: Option<AffEntry>,
                     cclass: Flag, needflag: Flag, badflag: Flag) returns (ok: bool)
    ensures SortedOpt(h.astr) && SortedOpt(e.contclass) && PfxSorted(ep) ==>
      (ok <==> SfxHomonymOk(e, h, xprod, ep, cclass, needflag, badflag))
  {
    var t1 := TestAff(h.astr, e.aflag);
    var t2 := false;
    if ep.Some? {
      t2 := TestAff(ep.value.contclass, e.aflag);
    }
    var t3 := !xprod;
    if !t3 && ep.Some? {
      t3 := TestAff(h.astr, ep.value.aflag);
      if !t3 && e.contclass.Some? {
        t3 := TestAff(e.contclass, ep.value.aflag);
      }
    }
    var t4 := cclass == 0;
    if !t4 {
      t4 := TestAff(e.contclass, cclass);
    }
    var t5 := badflag == 0;
    if !t5 {
      var b := TestAff(h.astr, badflag);
      t5 := !b;
    }
    var t6 := needflag == 0;
    if !t6 {
      t6 := TestAff(h.astr, needflag);
      if !t6 {
        t6 := TestAff(e.contclass, needflag);
      }
    }
    ok := (t1 || t2) && t3 && t4 && t5 && t6;
  }

  /**
   * Round trip: when the word ends with the suffix and checkword accepts a
   * stem of positive length, `add` on that stem gives the word back.
   */
  lemma SfxRoundTrip(e: AffEntry, fullstrip: bool, dict: Lookup, word: seq<char>,
                     start: nat, len: nat, xprod: bool, ep: Option<AffEntry>,
                     cclass: Flag, needflag: Flag, badflag: Flag)
    requires start + len <= |word|
    requires IsSuffix(e.appnd, word[start..start + len])
    requires SfxCheckWordSpec(e, fullstrip, dict, word, start, len, xprod, ep, cclass, needflag, badflag).Some?
    requires len > |e.appnd| || |e.strip| == 0
    ensures SfxAdd(e, fullstrip, SfxStem(e, word, start, len)) == Some(word[start..start + len])
  {
    var stem := SfxStem(e, word, start, len);
    var w := word[start..start + len];
    var tmpl := len - |e.appnd|;
    var r := SfxAdd(e, fullstrip, stem).value;
    assert stem[..|stem| - |e.strip|] == w[..tmpl];
    assert r == stem[..|stem| - |e.strip|] + e.appnd;
    assert w == w[..tmpl] + w[tmpl..];
  }

  /**
   * Under FULLSTRIP, checkword may accept the whole word as the suffix and
   * rebuild the stem from `strip` alone, which `add` does not apply to:
   * suffix "s" replacing "x" on the word "s".
   */
  lemma SfxFullStripNotInverse()
    ensures SfxStemFits(AffEntry("s", "x", 0, [], false, 1, None), true, 1)
    ensures SfxStem(AffEntry("s", "x", 0, [], false, 1, None), "s", 0, 1) == "x"
    ensures SfxAdd(AffEntry("s", "x", 0, [], false, 1, None), true, "x").None?
  {
    assert "s"[0..0] + "x" == "x";
  }

  /**
   * The homonym test of get_next_homonym: the same as checkword's except
   * that there is no bad-flag test and, without a governing prefix, the
   * cross-product test looks for flag 0.
   */
  predicate NextHomonymOk(e: AffEntry, h: HEntry, xprod: bool, ep: Option<AffEntry>,
                          cclass: Flag, needflag: Flag)
  {
    var eFlag: Flag := if ep.Some? then ep.value.aflag else 0;
    (Has(h.astr, e.aflag) || (ep.Some? && Has(ep.value.contclass, e.aflag))) &&
    (!xprod || Has(h.astr, eFlag) || Has(e.contclass, eFlag)) &&
    (cclass == 0 || Has(e.contclass, cclass)) &&
    (needflag == 0 || Has(h.astr, needflag) || Has(e.contclass, needflag))
  }

  /** With a governing prefix and no bad flag, get_next_homonym tests what checkword tests. */
  lemma {:induction false} NextHomonymAgrees(e: AffEntry, h: HEntry, xprod: bool, ep: AffEntry,
                                             cclass: Flag, needflag: Flag)
    ensures NextHomonymOk(e, h, xprod, Some(ep), cclass, needflag) ==
            SfxHomonymOk(e, h, xprod, Some(ep), cclass, needflag, 0)
  {
  }

  /** The position of the next homonym after i in the chain that passes NextHomonymOk, or -1. */
  function NextHomonymSpec(e: AffEntry, hs: seq<HEntry>, i: nat, xprod: bool, ep: Option<AffEntry>,
                           cclass: Flag, needflag: Flag): (r: int)
    ensures r == -1 || (i < r < |hs| && NextHomonymOk(e, hs[r], xprod, ep, cclass, needflag))
    ensures forall j :: i < j < |hs| && (r == -1 || j < r) ==> !NextHomonymOk(e, hs[j], xprod, ep, cclass, needflag)
    decreases |hs| - i
  {
    if i + 1 >= |hs| then -1
    else if NextHomonymOk(e, hs[i + 1], xprod, ep, cclass, needflag) then i + 1
    else NextHomonymSpec(e, hs, i + 1, xprod, ep, cclass, needflag)
  }

  /**
   * SfxEntry.get_next_homonym: from homonym i, the first later homonym of
   * the chain that passes the flag tests (an index into the chain), or -1.
   */
  method GetNextHomonym(e: AffEntry, hs: seq<HEntry>, i: nat, xprod: bool, ep: Option<AffEntry>,
                        cclass: Flag, needflag: Flag) returns (r: int)
    requires i < |hs|
    ensures r == -1 || i < r < |hs|
    ensures ChainSorted(hs) && SortedOpt(e.contclass) && PfxSorted(ep) ==>
      r == NextHomonymSpec(e, hs, i, xprod, ep, cclass, needflag)
  {
    var eFlag: Flag := if ep.Some? then ep.value.aflag else 0;
    ghost var sorted := ChainSorted(hs) && SortedOpt(e.contclass) && PfxSorted(ep);
    var k := i;
    while k + 1 < |hs|
      invariant i <= k < |hs|
      invariant sorted ==> NextHomonymSpec(e, hs, k, xprod, ep, cclass, needflag) ==
                           NextHomonymSpec(e, hs, i, xprod, ep, cclass, needflag)
      decreases |hs| - k
    {
      k := k + 1;
      var he := hs[k];
      var t1 := TestAff(he.astr, e.aflag);
      if !t1 && ep.Some? {
        t1 := TestAff(ep.value.contclass, e.aflag);
      }
      var t2 := !xprod;
      if !t2 {
        t2 := TestAff(he.astr, eFlag);
        if !t2 {
          t2 := TestAff(e.contclass, eFlag);
        }
      }
      var t3 := cclass == 0;
      if !t3 {
        t3 := TestAff(e.contclass, cclass);
      }
      var t4 := needflag == 0;
      if !t4 {
        t4 := TestAff(he.astr, needflag);
        if !t4 {
          t4 := TestAff(e.contclass, needflag);
        }
      }
      if sorted {
        assert SortedOpt(he.astr);
        assert (t1 && t2 && t3 && t4) <==> NextHomonymOk(e, he, xprod, ep, cclass, needflag);
      }
      if t1 && t2 && t3 && t4 {
        return k;
      }
    }
    return -1;
  }

  /** SfxEntry.initReverseWord / getKey: the suffix index is keyed by the reversed affix. */
  function SfxKey(e: AffEntry): (k: seq<char>)
    ensures |k| == |e.appnd| && Reverse(k) == e.appnd
  {
    ReverseReverse(e.appnd);
    Reverse(e.appnd)
  }

  // ---------------------------------------------------------------------
  // Prefixes

  /**
   * PfxEntry.add: the rule applies to words longer than `strip` (or to the
   * empty word under FULLSTRIP) that have at least numconds characters,
   * satisfy the condition and start with `strip`; the result is the word
   * with `strip` replaced by `appnd`.
   */
  function PfxAdd(e: AffEntry, fullstrip: bool, word: seq<char>): (r: Option<seq<char>>)
    ensures r.Some? <==>
      (|word| > |e.strip| || (|word| == 0 && fullstrip)) && |word| >= e.numconds &&
      PfxTest(e.conds, e.numconds, word) && IsPrefix(e.strip, word)
    ensures r.Some? ==> IsPrefix(e.appnd, r.value) && e.strip + r.value[|e.appnd|..] == word
  {
    var len := |word|;
    if (len > |e.strip| || (len == 0 && fullstrip)) && len >= e.numconds &&
       PfxTest(e.conds, e.numconds, word) &&
       (|e.strip| == 0 || (len >= |e.strip| && word[..|e.strip|] == e.strip))
    then
      var r := e.appnd + word[|e.strip|..];
      assert r[..|e.appnd|] == e.appnd && r[|e.appnd|..] == word[|e.strip|..];
      assert word == word[..|e.strip|] + word[|e.strip|..];
      Some(r)
    else None
  }

  /** The stem-length test of PfxEntry.checkword: only the length without the prefix is checked. */
  predicate PfxStemFits(e: AffEntry, fullstrip: bool, len: int)
  {
    var tmpl := len - |e.appnd|;
    tmpl > 0 || (tmpl == 0 && fullstrip)
  }

  /** The candidate stem: `strip` followed by word[start+|appnd|..start+len]. */
  function PfxStem(e: AffEntry, word: seq<char>, start: nat, len: nat): (r: seq<char>)
    requires start + len <= |word| && |e.appnd| <= len
    ensures |r| == |e.strip| + len - |e.appnd|
    ensures IsPrefix(e.strip, r) && r[|e.strip|..] == word[start + |e.appnd|..start + len]
  {
    var r := e.strip + word[start + |e.appnd|..start + len];
    assert r[..|e.strip|] == e.strip;
    r
  }

  /**
   * The homonym test of PfxEntry.checkword: the stem carries the prefix
   * flag, the prefix does not itself need a further affix, and the needed
   * flag is on the stem or on the prefix.
   */
  predicate PfxHomonymOk(e: AffEntry, h: HEntry, needaffix: Flag, needflag: Flag)
  {
    Has(h.astr, e.aflag) && !Has(e.contclass, needaffix) &&
    (needflag == 0 || Has(h.astr, needflag) || Has(e.contclass, needflag))
  }

  /**
   * The direct part of PfxEntry.checkword: the stem passes the condition and
   * some homonym of it passes the flag test (the first one is returned).
   */
  function PfxDirectSpec(e: AffEntry, fullstrip: bool, dict: Lookup, needaffix: Flag,
                         word: seq<char>, start: nat, len: nat, needflag: Flag): (r: Option<HEntry>)
    requires start + len <= |word|
    ensures r.Some? ==>
      PfxStemFits(e, fullstrip, len) && PfxTest(e.conds, e.numconds, PfxStem(e, word, start, len)) &&
      r.value in dict(PfxStem(e, word, start, len)) && PfxHomonymOk(e, r.value, needaffix, needflag)
  {
    if !PfxStemFits(e, fullstrip, len) then None
    else
      var stem := PfxStem(e, word, start, len);
      if !PfxTest(e.conds, e.numconds, stem) then None
      else FirstWhere((h: HEntry) => PfxHomonymOk(e, h, needaffix, needflag), dict(stem))
  }

  /**
   * The first half of PfxEntry.checkword: builds the stem in a fresh buffer,
   * tests the condition and walks the homonym chain. `matched` says whether
   * the stem passed the tests (the source then goes on to the cross-product
   * check); `r` is the homonym found, if any.
   */
  method PfxCheckDirect(e: AffEntry, fullstrip: bool, dict: Lookup, needaffix: Flag,
                        word: seq<char>, start: nat, len: nat, needflag: Flag)
    returns (matched: bool, stem: seq<char>, r: Option<HEntry>)
    requires EntryOk(e) && start + len <= |word|
    ensures matched <==> PfxStemFits(e, fullstrip, len) && PfxTest(e.conds, e.numconds, PfxStem(e, word, start, len))
    ensures matched ==> stem == PfxStem(e, word, start, len)
    ensures r.Some? ==> matched && r.value in dict(stem)
    ensures SortedOpt(e.contclass) && DictSorted(dict) ==>
      r == PfxDirectSpec(e, fullstrip, dict, needaffix, word, start, len, needflag)
  {
    var tmpl := len - |e.appnd|;
    if !(tmpl > 0 || (tmpl == 0 && fullstrip)) {
      return false, [], None;
    }
    stem := PfxBuildStem(e, word, start, len);
    matched := PrefixTestCondition(e.conds, e.numconds, stem);
    if !matched {
      return false, stem, None;
    }
    ghost var sorted := SortedOpt(e.contclass) && DictSorted(dict);
    if sorted {
      assert ChainSorted(dict(stem));
    }
    r := PfxHomonymSearch(e, dict(stem), needaffix, needflag);
  }

  /** The stem buffer of PfxEntry.checkword: `strip` then the rest of the word after the prefix. */
  method PfxBuildStem(e: AffEntry, word: seq<char>, start: nat, len: nat) returns (stem: seq<char>)
    requires start + len <= |word| && |e.appnd| <= len
    ensures stem == PfxStem(e, word, start, len)
  {
    var tmpl := len - |e.appnd|;
    var stripl := |e.strip|;
    var tmpword := new char[stripl + tmpl];
    var ok := CopyTo(Str(e.strip), 0, tmpword, 0, stripl);
    ok := CopyTo(Str(word), start + |e.appnd|, tmpword, stripl, tmpl);
    stem := tmpword[..];
    assert stem[..stripl] == tmpword[0..stripl];
    assert stem[stripl..] == tmpword[stripl..stripl + tmpl];
    assert stem == stem[..stripl] + stem[stripl..];
  }

  /** The do/while loop of PfxEntry.checkword over the homonym chain: the first homonym passing the test. */
  method PfxHomonymSearch(e: AffEntry, hs: seq<HEntry>, needaffix: Flag, needflag: Flag)
    returns (r: Option<HEntry>)
    ensures r.Some? ==> r.value in hs
    ensures SortedOpt(e.contclass) && ChainSorted(hs) ==>
      r == FirstWhere((h: HEntry) => PfxHomonymOk(e, h, needaffix, needflag), hs)
  {
    ghost var p := (h: HEntry) => PfxHomonymOk(e, h, needaffix, needflag);
    ghost var sorted := SortedOpt(e.contclass) && ChainSorted(hs);
    var i := 0;
    while i < |hs|
      invariant 0 <= i <= |hs|
      invariant sorted ==> forall j :: 0 <= j < i ==> !p(hs[j])
    {
      var he := hs[i];
      var t1 := TestAff(he.astr, e.aflag);
      var t2 := TestAff(e.contclass, needaffix);
      var t3 := needflag == 0;
      if !t3 {
        t3 := TestAff(he.astr, needflag);
        if !t3 && e.contclass.Some? {
          t3 := TestAff(e.contclass, needflag);
        }
      }
      if sorted {
        assert SortedOpt(he.astr);
        assert (t1 && !t2 && t3) <==> p(he);
      }
      if t1 && !t2 && t3 {
        if sorted {
          FirstWhereAt(p, hs, i);
        }
        return Some(he);
      }
      i := i + 1;
    }
    if sorted {
      FirstWhereNone(p, hs);
    }
    return None;
  }

  /**
   * Round trip: when the word starts with the prefix and checkword accepts
   * a stem of positive length that is at least numconds characters long,
   * `add` on that stem gives the word back.
   */
  lemma PfxRoundTrip(e: AffEntry, fullstrip: bool, dict: Lookup, needaffix: Flag,
                     word: seq<char>, start: nat, len: nat, needflag: Flag)
    requires start + len <= |word|
    requires IsPrefix(e.appnd, word[start..start + len])
    requires PfxDirectSpec(e, fullstrip, dict, needaffix, word, start, len, needflag).Some?
    requires len > |e.appnd| || |e.strip| == 0
    requires |PfxStem(e, word, start, len)| >= e.numconds
    ensures PfxAdd(e, fullstrip, PfxStem(e, word, start, len)) == Some(word[start..start + len])
  {
    var stem := PfxStem(e, word, start, len);
    var w := word[start..start + len];
    var r := PfxAdd(e, fullstrip, stem).value;
    assert r == e.appnd + stem[|e.strip|..];
    assert w == w[..|e.appnd|] + w[|e.appnd|..];
  }

  /**
   * PfxEntry.checkword does not check the stem against numconds: entry
   * "un" with condition "a[^b]" (two atoms) accepts the one-character stem
   * of "una", to which `add` does not apply.
   */
  lemma PfxShortStemNotInverse()
    ensures PfxStemFits(AffEntry("un", "", 2, "a[^b]", false, 1, None), false, 3)
    ensures PfxStem(AffEntry("un", "", 2, "a[^b]", false, 1, None), "una", 0, 3) == "a"
    ensures PfxTest("a[^b]", 2, "a")
    ensures PfxAdd(AffEntry("un", "", 2, "a[^b]", false, 1, None), false, "a").None?
  {
    assert "una"[2..3] == "a";
    assert "" + "a" == "a";
  }
}
