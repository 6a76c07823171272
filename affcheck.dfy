/**
 * The affix validators of AffixMgr.cs: prefix_check, suffix_check, their
 * two-level variants prefix_check_twosfx and suffix_check_twosfx, and
 * affix_check, together with the cross-product step of PfxEntry.checkword
 * and the check_twosfx methods of both entry kinds.
 *
 * Each validator first tries the entries with an empty affix (pStart0 /
 * sStart0), then walks the index chain of the word's first (prefix) or last
 * (suffix) character with the subset-pruned search. Each is specified by a
 * function giving its result in terms of the entries alone: the first entry,
 * in search order, whose check finds a root. The thread-local context
 * (Context.pfx, sfx, sfxflag, sfxappnd) is passed in and handed back.
 */
module AffixCheck {
  import opened Base
  import opened Flags
  import opened Ordinal
  import opened Conditions
  import opened AffixEntry
  import opened AffixTree
  import opened SubsetWalk
  import opened AffixLinks
  import opened AffixIndex

  /** IN_CPD: where in a compound the word being checked stands. */
  datatype InCpd = NOT | BEGIN | END | OTHER

  /** The settings of the affix manager the validators read; an unset flag is 0. */
  datatype Settings = Settings(fullstrip: bool, needaffix: Flag, onlyincompound: Flag,
                               compoundpermitflag: Flag, circumfix: Flag,
                               contclasses: set<Flag>, havecontclass: bool, dict: Lookup)

  /** The thread-local context the validators write (sfxextra, a Hungarian rule, is left out). */
  datatype Ctx = Ctx(pfx: Option<AffEntry>, sfx: Option<AffEntry>, sfxflag: Flag, sfxappnd: Option<seq<char>>)

  /** A root found, and the context as the search that found it leaves it. */
  datatype Hit = Hit(he: HEntry, ctx: Ctx)

  /** What a validator returns, and the context afterwards. */
  datatype Outcome = Outcome(rv: Option<HEntry>, ctx: Ctx)

  /** The arguments of suffix_check. */
  datatype SfxQuery = SfxQuery(word: seq<char>, start: nat, len: nat, xprod: bool,
                               ppfx: Option<AffEntry>, cclass: Flag, needflag: Flag, inc: InCpd)

  /** The arguments of suffix_check_twosfx. */
  datatype TwoQuery = TwoQuery(word: seq<char>, start: nat, len: nat, xprod: bool,
                               ppfx: Option<AffEntry>, needflag: Flag)

  /** The arguments of prefix_check, prefix_check_twosfx and affix_check. */
  datatype PfxQuery = PfxQuery(word: seq<char>, start: nat, len: nat, inc: InCpd, needflag: Flag)

  /** Every entry has a pattern to read for its conditions. */
  predicate Usable(entries: seq<AffEntry>)
  {
    forall i :: 0 <= i < |entries| ==> EntryOk(entries[i])
  }

  /** The flag sets are sorted, as the loaders leave them: then TESTAFF is membership. */
  ghost predicate Sane(s: Settings, t: Table)
  {
    DictSorted(s.dict) && forall i :: 0 <= i < |t.entries| ==> SortedOpt(t.entries[i].contclass)
  }

  /** A root is a homonym of some stem in the dictionary. */
  predicate Found(s: Settings, h: HEntry, w: seq<char>)
  {
    h in s.dict(w)
  }

  // ---------------------------------------------------------------------
  // Search order

  /** The result of the first x of xs, in order, for which f gives one. */
  function FirstHit<R>(f: int -> Option<R>, xs: seq<int>): Option<R>
    decreases |xs|
  {
    if xs == [] then None
    else if f(xs[0]).Some? then f(xs[0])
    else FirstHit(f, xs[1..])
  }

  /** The first hit is the result of some x of xs, and every earlier one misses; with no hit all miss. */
  lemma {:induction false} FirstHitFacts<R>(f: int -> Option<R>, xs: seq<int>)
    ensures FirstHit(f, xs).Some? ==>
      exists i :: 0 <= i < |xs| && f(xs[i]) == FirstHit(f, xs) && forall j :: 0 <= j < i ==> f(xs[j]).None?
    ensures FirstHit(f, xs).None? ==> forall i :: 0 <= i < |xs| ==> f(xs[i]).None?
    decreases |xs|
  {
    if xs != [] && f(xs[0]).None? {
      var r := xs[1..];
      FirstHitFacts(f, r);
      assert forall i :: 0 < i < |xs| ==> xs[i] == r[i - 1];
      if FirstHit(f, r).Some? {
        var i :| 0 <= i < |r| && f(r[i]) == FirstHit(f, r) && forall j :: 0 <= j < i ==> f(r[j]).None?;
        assert f(xs[i + 1]) == FirstHit(f, xs);
        assert forall j :: 0 <= j < i + 1 ==> f(xs[j]).None? by {
          forall j | 0 < j < i + 1 ensures f(xs[j]).None? {
            assert xs[j] == r[j - 1];
          }
        }
      }
    }
  }

  /** The entries at chain positions P of chain B (-1 past its end). */
  function Entries(B: seq<int>, P: seq<nat>): (xs: seq<int>)
    ensures |xs| == |P|
    decreases |P|
  {
    if P == [] then [] else [if P[0] < |B| then B[P[0]] else -1] + Entries(B, P[1..])
  }

  /** The entries the subset-pruned search visits, in order, in the chain of first key character c with word W. */
  function Searched(keys: seq<seq<char>>, c: char, W: seq<char>): seq<int>
  {
    var B := Bucket(keys, c);
    Entries(B, Walk(KeysAt(keys, B), W, 0))
  }

  /** One step of the search: a key that fits is tried, then the search goes on from its nextEQ. */
  lemma HitStep<R>(f: int -> Option<R>, B: seq<int>, k: nat, T: seq<nat>)
    requires k < |B|
    ensures FirstHit(f, Entries(B, [k] + T)) == if f(B[k]).Some? then f(B[k]) else FirstHit(f, Entries(B, T))
  {
    assert ([k] + T)[0] == k && ([k] + T)[1..] == T;
    var xs := Entries(B, [k] + T);
    assert xs[0] == B[k] && xs[1..] == Entries(B, T);
  }

  /** An empty chain: no entry is tried. */
  lemma NoChainNoHit<R>(f: int -> Option<R>, keys: seq<seq<char>>, B: seq<int>, W: seq<char>)
    requires B == []
    ensures FirstHit(f, Entries(B, Walk(KeysAt(keys, B), W, 0))) == None
  {
  }

  /** What a well-formed index says about the chain of character c. */
  lemma ChainOf(t: Table, c: char)
    requires TableOk(t)
    ensures |t.keys| == |t.entries| && |t.next| == |t.entries| && |t.nextEQ| == |t.entries| && |t.nextNE| == |t.entries|
    ensures CoverAt(t.keys, t.start, c) && ListAt(t.keys, t.next, t.start, c) &&
            LinkedChainAt(t.keys, t.nextEQ, t.nextNE, t.start, c)
  {
  }

  /** The chain of a character the index starts: a linked chain of in-range entries, from its head. */
  lemma ChainHead(t: Table, c: char)
    requires TableOk(t) && c in t.start
    ensures |t.keys| == |t.entries| && |t.nextEQ| == |t.entries| && |t.nextNE| == |t.entries|
    ensures InRange(Bucket(t.keys, c), |t.keys|)
    ensures Linked(t.keys, t.nextEQ, t.nextNE, Bucket(t.keys, c))
    ensures t.start[c] == LinkAt(Bucket(t.keys, c), 0)
  {
    ChainOf(t, c);
  }

  /** A character the index does not start has an empty chain. */
  lemma NoChain(t: Table, c: char)
    requires TableOk(t) && c !in t.start
    ensures Bucket(t.keys, c) == []
  {
    ChainOf(t, c);
  }

  /** The chain of a character the index does not start: nothing is searched. */
  lemma SearchedNone(keys: seq<seq<char>>, c: char, W: seq<char>)
    requires Bucket(keys, c) == []
    ensures Searched(keys, c, W) == []
  {
    assert KeysAt(keys, []) == [];
  }

  /**
   * On a chain of dot-free keys the pruned search gives what trying every
   * entry of the chain whose key fits the word, in chain order, gives.
   */
  lemma PrunedIsScan<R>(f: int -> Option<R>, keys: seq<seq<char>>, c: char, W: seq<char>)
    requires AllDotFree(KeysAt(keys, Bucket(keys, c)))
    ensures var B := Bucket(keys, c);
      FirstHit(f, Searched(keys, c, W)) == FirstHit(f, Entries(B, Matches(KeysAt(keys, B), W, 0)))
  {
    var B := Bucket(keys, c);
    var K := KeysAt(keys, B);
    BucketSorted(keys, c);
    assert KeysSorted(K) by {
      forall i, j | 0 <= i < j < |K| ensures LexLe(K[i], K[j]) {
        assert K[i] == keys[B[i]] && K[j] == keys[B[j]];
      }
    }
    WalkFindsAll(K, W);
  }

  /** The entry at position m of a visit. */
  lemma {:induction false} EntriesAt(B: seq<int>, P: seq<nat>, m: nat)
    requires m < |P|
    ensures Entries(B, P)[m] == if P[m] < |B| then B[P[m]] else -1
    decreases m
  {
    if m > 0 {
      EntriesAt(B, P[1..], m - 1);
    }
  }

  // ---------------------------------------------------------------------
  // suffix_check

  /**
   * The tests suffix_check makes on every candidate suffix: none at the
   * start of a compound without compoundpermitflag; circumfix on both
   * affixes or on neither; no onlyincompound suffix outside a compound;
   * a needaffix suffix only as the inner one or under a prefix without
   * needaffix.
   */
  predicate SfxAllowed(s: Settings, e: AffEntry, q: SfxQuery)
  {
    (q.inc != BEGIN || (s.compoundpermitflag != 0 && Has(e.contclass, s.compoundpermitflag))) &&
    (s.circumfix == 0 ||
     (!(q.ppfx.Some? && Has(q.ppfx.value.contclass, s.circumfix)) && !Has(e.contclass, s.circumfix)) ||
     (q.ppfx.Some? && Has(q.ppfx.value.contclass, s.circumfix) && Has(e.contclass, s.circumfix))) &&
    (q.inc != NOT || !(s.onlyincompound != 0 && Has(e.contclass, s.onlyincompound))) &&
    (q.cclass != 0 || !(s.needaffix != 0 && Has(e.contclass, s.needaffix)) ||
     (q.ppfx.Some? && !(s.needaffix != 0 && Has(q.ppfx.value.contclass, s.needaffix))))
  }

  /** The further test on indexed suffixes: an onlyincompound suffix ends a compound only under a prefix. */
  predicate SfxEndAllowed(s: Settings, e: AffEntry, q: SfxQuery)
  {
    q.inc != END || q.ppfx.Some? || !(s.onlyincompound != 0 && Has(e.contclass, s.onlyincompound))
  }

  /** The flag a root may not carry: onlyincompound outside compounds. */
  function BadFlag(s: Settings, inc: InCpd): Flag
  {
    if inc != NOT then 0 else s.onlyincompound
  }

  /** The context after suffix e (with key `key`) found a root: an empty suffix records only itself. */
  function SfxMark(ctx: Ctx, e: AffEntry, key: seq<char>, zero: bool): Ctx
  {
    if zero then ctx.(sfx := Some(e))
    else ctx.(sfx := Some(e), sfxflag := e.aflag, sfxappnd := if e.contclass.None? then Some(key) else ctx.sfxappnd)
  }

  /** Trying suffix entry x in suffix_check (`zero`: on the empty-suffix list). */
  function SfxAt(s: Settings, t: Table, q: SfxQuery, ctx: Ctx, zero: bool, x: int): (r: Option<Hit>)
  {
    if x < 0 || x >= |t.entries| || x >= |t.keys| || q.start + q.len > |q.word| then None
    else
      var e := t.entries[x];
      if !SfxAllowed(s, e, q) then None
      else if zero && !(q.cclass == 0 || e.contclass.Some?) then None
      else if !zero && !SfxEndAllowed(s, e, q) then None
      else
        match SfxCheckWordSpec(e, s.fullstrip, s.dict, q.word, q.start, q.len, q.xprod, q.ppfx,
                               q.cclass, q.needflag, BadFlag(s, q.inc))
        case None => None
        case Some(h) => Some(Hit(h, SfxMark(ctx, e, t.keys[x], zero)))
  }

  function SfxProbe(s: Settings, t: Table, q: SfxQuery, ctx: Ctx, zero: bool): int -> Option<Hit>
  {
    x => SfxAt(s, t, q, ctx, zero, x)
  }

  /** suffix_check: the empty suffixes first, then the chain of the last character, searched backward. */
  function SuffixCheckSpec(s: Settings, t: Table, q: SfxQuery, ctx: Ctx): Option<Hit>
  {
    var z := FirstHit(SfxProbe(s, t, q, ctx, true), ZeroList(t.keys));
    if z.Some? || q.len == 0 || q.start + q.len > |q.word| then z else SfxIndexedSpec(s, t, q, ctx)
  }

  /** The general case: the entries of the chain of the last character that the search visits, in order. */
  function SfxIndexedSpec(s: Settings, t: Table, q: SfxQuery, ctx: Ctx): Option<Hit>
    requires 0 < q.len && q.start + q.len <= |q.word|
  {
    var last := q.start + q.len - 1;
    FirstHit(SfxProbe(s, t, q, ctx, false), Searched(t.keys, q.word[last], Backward(q.word, last, q.len)))
  }

  method SfxAllowedTest(s: Settings, e: AffEntry, q: SfxQuery) returns (ok: bool)
    ensures SortedOpt(e.contclass) && PfxSorted(q.ppfx) ==> (ok <==> SfxAllowed(s, e, q))
  {
    var permit := false;
    if s.compoundpermitflag != 0 {
      permit := TestAff(e.contclass, s.compoundpermitflag);
    }
    var c1 := q.inc != BEGIN || permit;
    var c2 := s.circumfix == 0;
    if !c2 {
      var pc := false;
      if q.ppfx.Some? {
        pc := TestAff(q.ppfx.value.contclass, s.circumfix);
      }
      var sc := TestAff(e.contclass, s.circumfix);
      c2 := (!pc && !sc) || (pc && sc);
    }
    var only := false;
    if s.onlyincompound != 0 {
      only := TestAff(e.contclass, s.onlyincompound);
    }
    var c3 := q.inc != NOT || !only;
    var c4 := q.cclass != 0;
    if !c4 {
      var na := false;
      if s.needaffix != 0 {
        na := TestAff(e.contclass, s.needaffix);
      }
      c4 := !na;
      if !c4 && q.ppfx.Some? {
        var pna := false;
        if s.needaffix != 0 {
          pna := TestAff(q.ppfx.value.contclass, s.needaffix);
        }
        c4 := !pna;
      }
    }
    ok := c1 && c2 && c3 && c4;
  }

  method SfxEndTest(s: Settings, e: AffEntry, q: SfxQuery) returns (ok: bool)
    ensures SortedOpt(e.contclass) ==> (ok <==> SfxEndAllowed(s, e, q))
  {
    var only := false;
    if s.onlyincompound != 0 {
      only := TestAff(e.contclass, s.onlyincompound);
    }
    ok := q.inc != END || q.ppfx.Some? || !only;
  }

  /** One candidate of suffix_check: the tests on the entry, then SfxEntry.checkword. */
  method SfxTry(s: Settings, t: Table, q: SfxQuery, ctx: Ctx, zero: bool, x: int) returns (r: Option<Hit>)
    requires 0 <= x < |t.entries| && |t.keys| == |t.entries| && EntryOk(t.entries[x])
    requires q.start + q.len <= |q.word|
    ensures Sane(s, t) && PfxSorted(q.ppfx) ==> r == SfxAt(s, t, q, ctx, zero, x)
  {
    var e := t.entries[x];
    ghost var sorted := Sane(s, t) && PfxSorted(q.ppfx);
    if sorted {
      assert SortedOpt(e.contclass);
    }
    var ok := SfxAllowedTest(s, e, q);
    if ok {
      if zero {
        ok := q.cclass == 0 || e.contclass.Some?;
      } else {
        ok := SfxEndTest(s, e, q);
      }
    }
    if !ok {
      return None;
    }
    var h := SfxCheckWord(e, s.fullstrip, s.dict, q.word, q.start, q.len, q.xprod, q.ppfx,
                          q.cclass, q.needflag, BadFlag(s, q.inc));
    if h.None? {
      return None;
    }
    r := Some(Hit(h.value, SfxMark(ctx, e, t.keys[x], zero)));
  }

  /** The first loop of suffix_check, over sStart0. */
  method SfxZero(s: Settings, t: Table, q: SfxQuery, ctx: Ctx) returns (r: Option<Hit>)
    requires TableOk(t) && Usable(t.entries) && q.start + q.len <= |q.word|
    ensures Sane(s, t) && PfxSorted(q.ppfx) ==> r == FirstHit(SfxProbe(s, t, q, ctx, true), ZeroList(t.keys))
  {
    ghost var Z := ZeroList(t.keys);
    ghost var f := SfxProbe(s, t, q, ctx, true);
    ghost var sorted := Sane(s, t) && PfxSorted(q.ppfx);
    var ptr := t.start0;
    ghost var k := 0;
    assert Z[0..] == Z;
    while ptr != -1
      invariant 0 <= k <= |Z| && IsChain(t.next, ptr, Z[k..])
      invariant sorted ==> FirstHit(f, Z) == FirstHit(f, Z[k..])
      decreases |Z| - k
    {
      ChainEnd(t.next, ptr, Z, k);
      ChainStep(t.next, ptr, Z, k);
      assert Z[k..][0] == Z[k] && Z[k..][1..] == Z[k + 1..];
      r := SfxTry(s, t, q, ctx, true, ptr);
      if r.Some? {
        return;
      }
      ptr := t.next[ptr];
      k := k + 1;
    }
    ChainEnd(t.next, ptr, Z, k);
    assert Z[k..] == [];
    r := None;
  }

  /** The second loop of suffix_check: the pruned search of chain B, from its head h. */
  method SfxWalk(s: Settings, t: Table, q: SfxQuery, ctx: Ctx, h: int, ghost B: seq<int>) returns (r: Option<Hit>)
    requires |t.keys| == |t.entries| && |t.nextEQ| == |t.entries| && |t.nextNE| == |t.entries|
    requires Usable(t.entries) && InRange(B, |t.keys|) && Linked(t.keys, t.nextEQ, t.nextNE, B)
    requires h == LinkAt(B, 0) && 0 < q.len && q.start + q.len <= |q.word|
    ensures Sane(s, t) && PfxSorted(q.ppfx) ==>
      r == FirstHit(SfxProbe(s, t, q, ctx, false),
                    Entries(B, Walk(KeysAt(t.keys, B), Backward(q.word, q.start + q.len - 1, q.len), 0)))
  {
    ghost var K := KeysAt(t.keys, B);
    ghost var W := Backward(q.word, q.start + q.len - 1, q.len);
    ghost var f := SfxProbe(s, t, q, ctx, false);
    ghost var sorted := Sane(s, t) && PfxSorted(q.ppfx);
    var ptr := h;
    ghost var k: nat := 0;
    while ptr != -1
      invariant k <= |B| && ptr == LinkAt(B, k)
      invariant sorted ==> FirstHit(f, Entries(B, Walk(K, W, 0))) == FirstHit(f, Entries(B, Walk(K, W, k)))
      decreases |B| - k
    {
      assert k < |B| && ptr == B[k] && t.keys[ptr] == K[k];
      assert LinkedAt(B, K, t.nextEQ, t.nextNE, k);
      var fits := IsRevSubset(t.keys[ptr], q.word, q.start + q.len - 1, q.len);
      if fits {
        assert Walk(K, W, k) == [k] + Walk(K, W, EQPos(K, k));
        HitStep(f, B, k, Walk(K, W, EQPos(K, k)));
        r := SfxTry(s, t, q, ctx, false, ptr);
        if r.Some? {
          return;
        }
        ptr, k := t.nextEQ[ptr], EQPos(K, k);
      } else {
        assert Walk(K, W, k) == Walk(K, W, NEPos(K, k));
        ptr, k := t.nextNE[ptr], NEPos(K, k);
      }
    }
    r := None;
  }

  /** A word whose last character starts no chain finds nothing. */
  lemma SfxIndexedSpecNone(s: Settings, t: Table, q: SfxQuery, ctx: Ctx)
    requires TableOk(t) && 0 < q.len && q.start + q.len <= |q.word| && q.word[q.start + q.len - 1] !in t.start
    ensures SfxIndexedSpec(s, t, q, ctx) == None
  {
    var last := q.start + q.len - 1;
    SfxIndexedSpecUnfold(s, t, q, ctx);
    NoChain(t, q.word[last]);
    NoChainNoHit(SfxProbe(s, t, q, ctx, false), t.keys, Bucket(t.keys, q.word[last]), Backward(q.word, last, q.len));
  }

  lemma SfxIndexedSpecUnfold(s: Settings, t: Table, q: SfxQuery, ctx: Ctx)
    requires 0 < q.len && q.start + q.len <= |q.word|
    ensures var last := q.start + q.len - 1; var B := Bucket(t.keys, q.word[last]);
      SfxIndexedSpec(s, t, q, ctx) == FirstHit(SfxProbe(s, t, q, ctx, false), Entries(B, Walk(KeysAt(t.keys, B), Backward(q.word, last, q.len), 0)))
  {
    hide FirstHit, Entries, Walk, KeysAt, Bucket, Backward, SfxProbe;
  }

  /** The general case of suffix_check: the chain of the last character of the word. */
  method SfxIndexed(s: Settings, t: Table, q: SfxQuery, ctx: Ctx) returns (r: Option<Hit>)
    requires TableOk(t) && Usable(t.entries) && 0 < q.len && q.start + q.len <= |q.word|
    ensures Sane(s, t) && PfxSorted(q.ppfx) ==> r == SfxIndexedSpec(s, t, q, ctx)
  {
    var last := q.start + q.len - 1;
    var c := q.word[last];
    if c !in t.start {
      SfxIndexedSpecNone(s, t, q, ctx);
      return None;
    }
    ChainHead(t, c);
    SfxIndexedSpecUnfold(s, t, q, ctx);
    hide *;
    r := SfxWalk(s, t, q, ctx, t.start[c], Bucket(t.keys, c));
  }

  /** suffix_check: on sorted flag sets its answer is SuffixCheckSpec. */
  method SuffixCheck(s: Settings, t: Table, q: SfxQuery, ctx: Ctx) returns (r: Option<Hit>)
    requires TableOk(t) && Usable(t.entries) && q.start + q.len <= |q.word|
    ensures Sane(s, t) && PfxSorted(q.ppfx) ==> r == SuffixCheckSpec(s, t, q, ctx)
  {
    r := SfxZero(s, t, q, ctx);
    if r.Some? || q.len == 0 {
      return;
    }
    r := SfxIndexed(s, t, q, ctx);
  }

  /** What trying one suffix entry yields: the root its checkword finds, with the entry recorded. */
  lemma SfxAtExplained(s: Settings, t: Table, q: SfxQuery, ctx: Ctx, zero: bool, x: int)
    requires SfxAt(s, t, q, ctx, zero, x).Some?
    ensures var h := SfxAt(s, t, q, ctx, zero, x).value;
      0 <= x < |t.entries| && h.ctx.pfx == ctx.pfx && h.ctx.sfx == Some(t.entries[x]) &&
      SfxCheckWordSpec(t.entries[x], s.fullstrip, s.dict, q.word, q.start, q.len, q.xprod, q.ppfx,
                       q.cclass, q.needflag, BadFlag(s, q.inc)) == Some(h.he)
  {
  }

  /** The first hit of a probe in a search is the hit of some entry searched. */
  lemma HitFrom<R>(f: int -> Option<R>, xs: seq<int>) returns (x: int)
    requires FirstHit(f, xs).Some?
    ensures x in xs && f(x) == FirstHit(f, xs)
  {
    FirstHitFacts(f, xs);
    var i :| 0 <= i < |xs| && f(xs[i]) == FirstHit(f, xs) && forall j :: 0 <= j < i ==> f(xs[j]).None?;
    x := xs[i];
  }

  /** A root suffix_check returns comes from the suffix it records: that entry's checkword finds it. */
  lemma SuffixHitExplained(s: Settings, t: Table, q: SfxQuery, ctx: Ctx)
    requires q.start + q.len <= |q.word|
    ensures var r := SuffixCheckSpec(s, t, q, ctx);
      r.Some? ==> (r.value.ctx.pfx == ctx.pfx && r.value.ctx.sfx.Some? &&
        SfxCheckWordSpec(r.value.ctx.sfx.value, s.fullstrip, s.dict, q.word, q.start, q.len, q.xprod, q.ppfx,
                         q.cclass, q.needflag, BadFlag(s, q.inc)) == Some(r.value.he))
  {
    hide SfxAt, SfxCheckWordSpec, FirstHit, Searched, ZeroList, Backward;
    var r := SuffixCheckSpec(s, t, q, ctx);
    var z := FirstHit(SfxProbe(s, t, q, ctx, true), ZeroList(t.keys));
    if z.Some? {
      var x := HitFrom(SfxProbe(s, t, q, ctx, true), ZeroList(t.keys));
      SfxAtExplained(s, t, q, ctx, true, x);
    } else if r.Some? {
      var last := q.start + q.len - 1;
      var xs := Searched(t.keys, q.word[last], Backward(q.word, last, q.len));
      var x := HitFrom(SfxProbe(s, t, q, ctx, false), xs);
      SfxAtExplained(s, t, q, ctx, false, x);
    }
  }

  /** A root suffix_check returns is a homonym of a stem in the dictionary. */
  lemma SuffixHitFound(s: Settings, t: Table, q: SfxQuery, ctx: Ctx)
    requires q.start + q.len <= |q.word|
    ensures var r := SuffixCheckSpec(s, t, q, ctx);
      r.Some? ==> exists w :: Found(s, r.value.he, w)
  {
    var r := SuffixCheckSpec(s, t, q, ctx);
    SuffixHitExplained(s, t, q, ctx);
    if r.Some? {
      var e := r.value.ctx.sfx.value;
      assert Found(s, r.value.he, SfxStem(e, q.word, q.start, q.len));
    }
  }

  // ---------------------------------------------------------------------
  // suffix_check_twosfx and SfxEntry.check_twosfx

  /**
   * The stem SfxEntry.check_twosfx rebuilds when the outer suffix e applies:
   * e takes part in a cross product if one is asked for, the stem fits and
   * meets the condition.
   */
  function TwoStem(s: Settings, e: AffEntry, q: TwoQuery): (r: Option<seq<char>>)
    ensures r.Some? ==> (q.start + q.len <= |q.word| && SfxStemFits(e, s.fullstrip, q.len) &&
      r.value == SfxStem(e, q.word, q.start, q.len) && SfxTest(e.conds, e.numconds, r.value))
  {
    if q.start + q.len > |q.word| || (q.xprod && !e.cross) || !SfxStemFits(e, s.fullstrip, q.len) then None
    else
      var stem := SfxStem(e, q.word, q.start, q.len);
      if SfxTest(e.conds, e.numconds, stem) then Some(stem) else None
  }

  /**
   * The inner suffix_check of check_twosfx: over the whole rebuilt stem,
   * under the outer suffix's flag, outside compounds; the prefix is passed
   * on unless the outer suffix's continuation flags name it.
   */
  function InnerQuery(e: AffEntry, q: TwoQuery, stem: seq<char>): (r: SfxQuery)
    ensures r.start == 0 && r.len == |stem| && r.word == stem && r.cclass == e.aflag && r.inc == NOT
  {
    if q.ppfx.Some? && !Has(e.contclass, q.ppfx.value.aflag) then
      SfxQuery(stem, 0, |stem|, q.xprod, q.ppfx, e.aflag, q.needflag, NOT)
    else SfxQuery(stem, 0, |stem|, false, None, e.aflag, q.needflag, NOT)
  }

  /**
   * The inner query as SfxEntry.check_twosfx writes it: the length passed
   * is that of the stem before `strip` was put back.
   */
  function InnerQueryAsWritten(e: AffEntry, q: TwoQuery, stem: seq<char>): (r: SfxQuery)
    requires |e.strip| <= |stem|
    ensures r.word == stem && r.len + |e.strip| == |stem|
  {
    InnerQuery(e, q, stem).(len := |stem| - |e.strip|)
  }

  /** SfxEntry.check_twosfx: strip the outer suffix, then look for an inner one continuing with its flag. */
  function SfxTwoWordSpec(s: Settings, t: Table, e: AffEntry, q: TwoQuery, ctx: Ctx): Option<Hit>
  {
    match TwoStem(s, e, q)
    case None => None
    case Some(stem) => SuffixCheckSpec(s, t, InnerQuery(e, q, stem), ctx)
  }

  /** SfxEntry.check_twosfx as written, with the short inner length. */
  function SfxTwoWordAsWritten(s: Settings, t: Table, e: AffEntry, q: TwoQuery, ctx: Ctx): Option<Hit>
  {
    match TwoStem(s, e, q)
    case None => None
    case Some(stem) => SuffixCheckSpec(s, t, InnerQueryAsWritten(e, q, stem), ctx)
  }

  /** Trying suffix entry x as the outer suffix in suffix_check_twosfx (`zero`: on the empty-suffix list). */
  function TwoAt(s: Settings, t: Table, q: TwoQuery, ctx: Ctx, zero: bool, x: int): Option<Hit>
  {
    if x < 0 || x >= |t.entries| || x >= |t.keys| then None
    else
      var e := t.entries[x];
      if e.aflag !in s.contclasses then None
      else
        match SfxTwoWordSpec(s, t, e, q, ctx)
        case None => None
        case Some(h) =>
          if zero then Some(h)
          else Some(Hit(h.he, h.ctx.(sfxflag := e.aflag,
                                     sfxappnd := if e.contclass.None? then Some(t.keys[x]) else h.ctx.sfxappnd)))
  }

  function TwoProbe(s: Settings, t: Table, q: TwoQuery, ctx: Ctx, zero: bool): int -> Option<Hit>
  {
    x => TwoAt(s, t, q, ctx, zero, x)
  }

  /** suffix_check_twosfx: the empty suffixes first, then the chain of the last character. */
  function SuffixCheckTwoSpec(s: Settings, t: Table, q: TwoQuery, ctx: Ctx): Option<Hit>
  {
    var z := FirstHit(TwoProbe(s, t, q, ctx, true), ZeroList(t.keys));
    if z.Some? || q.len == 0 || q.start + q.len > |q.word| then z else TwoIndexedSpec(s, t, q, ctx)
  }

  function TwoIndexedSpec(s: Settings, t: Table, q: TwoQuery, ctx: Ctx): Option<Hit>
    requires 0 < q.len && q.start + q.len <= |q.word|
  {
    var last := q.start + q.len - 1;
    FirstHit(TwoProbe(s, t, q, ctx, false), Searched(t.keys, q.word[last], Backward(q.word, last, q.len)))
  }

  /** SfxEntry.check_twosfx, with the inner length corrected. */
  method SfxCheckTwoSfx(s: Settings, t: Table, e: AffEntry, q: TwoQuery, ctx: Ctx) returns (r: Option<Hit>)
    requires TableOk(t) && Usable(t.entries) && EntryOk(e) && q.start + q.len <= |q.word|
    ensures Sane(s, t) && SortedOpt(e.contclass) && PfxSorted(q.ppfx) ==> r == SfxTwoWordSpec(s, t, e, q, ctx)
  {
    hide SuffixCheckSpec, SfxIndexedSpec, ListsOk, LinksOk, Sane, FirstHit, ZeroList, SfxHolds, Parse, WellFormed, SfxStem, SfxTest;
    if q.xprod && !e.cross {
      return None;
    }
    var tmpl := q.len - |e.appnd|;
    if !((tmpl > 0 || (tmpl == 0 && s.fullstrip)) && tmpl + |e.strip| >= e.numconds) {
      return None;
    }
    var stem := SfxBuildStem(e, q.word, q.start, q.len);
    var ok := SuffixTestCondition(e.conds, e.numconds, stem);
    if !ok {
      return None;
    }
    var keep := false;
    if q.ppfx.Some? {
      var named := TestAff(e.contclass, q.ppfx.value.aflag);
      keep := !named;
    }
    var iq := if keep then SfxQuery(stem, 0, |stem|, q.xprod, q.ppfx, e.aflag, q.needflag, NOT)
              else SfxQuery(stem, 0, |stem|, false, None, e.aflag, q.needflag, NOT);
    ghost var sorted := Sane(s, t) && SortedOpt(e.contclass) && PfxSorted(q.ppfx);
    if sorted {
      assert iq == InnerQuery(e, q, stem) && PfxSorted(iq.ppfx);
    }
    r := SuffixCheck(s, t, iq, ctx);
  }

  /** One candidate of suffix_check_twosfx: its flag must be a continuation class, then check_twosfx. */
  method TwoTry(s: Settings, t: Table, q: TwoQuery, ctx: Ctx, zero: bool, x: int) returns (r: Option<Hit>)
    requires TableOk(t) && Usable(t.entries) && 0 <= x < |t.entries| && q.start + q.len <= |q.word|
    ensures Sane(s, t) && PfxSorted(q.ppfx) ==> r == TwoAt(s, t, q, ctx, zero, x)
    ensures !zero && r.Some? ==> r.value.ctx.sfxflag == t.entries[x].aflag
  {
    var e := t.entries[x];
    if e.aflag !in s.contclasses {
      return None;
    }
    ghost var sorted := Sane(s, t) && PfxSorted(q.ppfx);
    if sorted {
      assert SortedOpt(e.contclass);
    }
    var h := SfxCheckTwoSfx(s, t, e, q, ctx);
    if h.None? {
      return None;
    }
    if zero {
      r := h;
    } else {
      var appnd := if e.contclass.None? then Some(t.keys[x]) else h.value.ctx.sfxappnd;
      r := Some(Hit(h.value.he, h.value.ctx.(sfxflag := e.aflag, sfxappnd := appnd)));
    }
  }

  /** The first loop of suffix_check_twosfx, over sStart0. */
  method TwoZero(s: Settings, t: Table, q: TwoQuery, ctx: Ctx) returns (r: Option<Hit>)
    requires TableOk(t) && Usable(t.entries) && q.start + q.len <= |q.word|
    ensures Sane(s, t) && PfxSorted(q.ppfx) ==> r == FirstHit(TwoProbe(s, t, q, ctx, true), ZeroList(t.keys))
  {
    ghost var Z := ZeroList(t.keys);
    ghost var f := TwoProbe(s, t, q, ctx, true);
    ghost var sorted := Sane(s, t) && PfxSorted(q.ppfx);
    var ptr := t.start0;
    ghost var k := 0;
    assert Z[0..] == Z;
    while ptr != -1
      invariant 0 <= k <= |Z| && IsChain(t.next, ptr, Z[k..])
      invariant sorted ==> FirstHit(f, Z) == FirstHit(f, Z[k..])
      decreases |Z| - k
    {
      ChainEnd(t.next, ptr, Z, k);
      ChainStep(t.next, ptr, Z, k);
      assert Z[k..][0] == Z[k] && Z[k..][1..] == Z[k + 1..];
      r := TwoTry(s, t, q, ctx, true, ptr);
      if r.Some? {
        return;
      }
      ptr := t.next[ptr];
      k := k + 1;
    }
    ChainEnd(t.next, ptr, Z, k);
    assert Z[k..] == [];
    r := None;
  }

  /**
   * One step of the second loop of suffix_check_twosfx at chain position k:
   * try the entry if its key fits, else (or on a miss) follow its link.
   */
  method TwoStep(s: Settings, t: Table, q: TwoQuery, ctx: Ctx, ptr: int, ghost B: seq<int>, ghost k: nat)
    returns (r: Option<Hit>, next: int, ghost k2: nat)
    requires TableOk(t) && Usable(t.entries) && InRange(B, |t.keys|) && Linked(t.keys, t.nextEQ, t.nextNE, B)
    requires k < |B| && ptr == B[k] && 0 < q.len && q.start + q.len <= |q.word|
    ensures r.None? ==> k < k2 <= |B| && next == LinkAt(B, k2)
    ensures r.Some? ==> Subset(t.keys[ptr], Backward(q.word, q.start + q.len - 1, q.len))
    ensures r.Some? ==> r.value.ctx.sfxflag == t.entries[ptr].aflag
    ensures Sane(s, t) && PfxSorted(q.ppfx) ==>
      var f := TwoProbe(s, t, q, ctx, false);
      var K := KeysAt(t.keys, B);
      var W := Backward(q.word, q.start + q.len - 1, q.len);
      if r.Some? then r == FirstHit(f, Entries(B, Walk(K, W, k)))
      else FirstHit(f, Entries(B, Walk(K, W, k))) == FirstHit(f, Entries(B, Walk(K, W, k2)))
  {
    hide ListsOk, LinksOk, ZeroList, Sane, PfxSorted, TwoAt, Backward;
    ghost var K := KeysAt(t.keys, B);
    ghost var W := Backward(q.word, q.start + q.len - 1, q.len);
    assert t.keys[ptr] == K[k];
    assert LinkedAt(B, K, t.nextEQ, t.nextNE, k);
    var fits := IsRevSubset(t.keys[ptr], q.word, q.start + q.len - 1, q.len);
    if fits {
      assert Walk(K, W, k) == [k] + Walk(K, W, EQPos(K, k));
      HitStep(TwoProbe(s, t, q, ctx, false), B, k, Walk(K, W, EQPos(K, k)));
      r := TwoTry(s, t, q, ctx, false, ptr);
      next, k2 := t.nextEQ[ptr], EQPos(K, k);
    } else {
      assert Walk(K, W, k) == Walk(K, W, NEPos(K, k));
      r, next, k2 := None, t.nextNE[ptr], NEPos(K, k);
    }
  }

  /** The second loop of suffix_check_twosfx: the pruned search of chain B, from its head h. */
  method TwoWalk(s: Settings, t: Table, q: TwoQuery, ctx: Ctx, h: int, ghost B: seq<int>) returns (r: Option<Hit>)
    requires TableOk(t) && Usable(t.entries) && InRange(B, |t.keys|) && Linked(t.keys, t.nextEQ, t.nextNE, B)
    requires h == LinkAt(B, 0) && 0 < q.len && q.start + q.len <= |q.word|
    ensures Sane(s, t) && PfxSorted(q.ppfx) ==>
      r == FirstHit(TwoProbe(s, t, q, ctx, false),
                    Entries(B, Walk(KeysAt(t.keys, B), Backward(q.word, q.start + q.len - 1, q.len), 0)))
  {
    ghost var K := KeysAt(t.keys, B);
    ghost var W := Backward(q.word, q.start + q.len - 1, q.len);
    ghost var f := TwoProbe(s, t, q, ctx, false);
    ghost var sorted := Sane(s, t) && PfxSorted(q.ppfx);
    var ptr := h;
    ghost var k: nat := 0;
    while ptr != -1
      invariant k <= |B| && ptr == LinkAt(B, k)
      invariant sorted ==> FirstHit(f, Entries(B, Walk(K, W, 0))) == FirstHit(f, Entries(B, Walk(K, W, k)))
      decreases |B| - k
    {
      r, ptr, k := TwoStep(s, t, q, ctx, ptr, B, k);
      if r.Some? {
        return;
      }
    }
    r := None;
  }

  /** A word whose last character starts no chain finds nothing. */
  lemma TwoIndexedSpecNone(s: Settings, t: Table, q: TwoQuery, ctx: Ctx)
    requires TableOk(t) && 0 < q.len && q.start + q.len <= |q.word| && q.word[q.start + q.len - 1] !in t.start
    ensures TwoIndexedSpec(s, t, q, ctx) == None
  {
    var last := q.start + q.len - 1;
    TwoIndexedSpecUnfold(s, t, q, ctx);
    NoChain(t, q.word[last]);
    NoChainNoHit(TwoProbe(s, t, q, ctx, false), t.keys, Bucket(t.keys, q.word[last]), Backward(q.word, last, q.len));
  }

  lemma TwoIndexedSpecUnfold(s: Settings, t: Table, q: TwoQuery, ctx: Ctx)
    requires 0 < q.len && q.start + q.len <= |q.word|
    ensures var last := q.start + q.len - 1; var B := Bucket(t.keys, q.word[last]);
      TwoIndexedSpec(s, t, q, ctx) == FirstHit(TwoProbe(s, t, q, ctx, false), Entries(B, Walk(KeysAt(t.keys, B), Backward(q.word, last, q.len), 0)))
  {
    hide FirstHit, Entries, Walk, KeysAt, Bucket, Backward, TwoProbe;
  }

  /** The general case of suffix_check_twosfx: the chain of the last character of the word. */
  method TwoIndexed(s: Settings, t: Table, q: TwoQuery, ctx: Ctx) returns (r: Option<Hit>)
    requires TableOk(t) && Usable(t.entries) && 0 < q.len && q.start + q.len <= |q.word|
    ensures Sane(s, t) && PfxSorted(q.ppfx) ==> r == TwoIndexedSpec(s, t, q, ctx)
  {
    var last := q.start + q.len - 1;
    var c := q.word[last];
    if c !in t.start {
      TwoIndexedSpecNone(s, t, q, ctx);
      return None;
    }
    ChainHead(t, c);
    TwoIndexedSpecUnfold(s, t, q, ctx);
    hide *;
    r := TwoWalk(s, t, q, ctx, t.start[c], Bucket(t.keys, c));
  }

  /** suffix_check_twosfx: on sorted flag sets its answer is SuffixCheckTwoSpec. */
  method SuffixCheckTwo(s: Settings, t: Table, q: TwoQuery, ctx: Ctx) returns (r: Option<Hit>)
    requires TableOk(t) && Usable(t.entries) && q.start + q.len <= |q.word|
    ensures Sane(s, t) && PfxSorted(q.ppfx) ==> r == SuffixCheckTwoSpec(s, t, q, ctx)
  {
    r := TwoZero(s, t, q, ctx);
    if r.Some? || q.len == 0 {
      return;
    }
    r := TwoIndexed(s, t, q, ctx);
  }

  // ---------------------------------------------------------------------
  // prefix_check and PfxEntry.checkword

  /** The tests prefix_check makes on a candidate: no onlyincompound prefix outside compounds, none ending one without compoundpermitflag. */
  predicate PfxAllowed(s: Settings, e: AffEntry, inc: InCpd)
  {
    (inc != NOT || !(s.onlyincompound != 0 && Has(e.contclass, s.onlyincompound))) &&
    (inc != END || (s.compoundpermitflag != 0 && Has(e.contclass, s.compoundpermitflag)))
  }

  /**
   * PfxEntry.checkword: the stem in the dictionary; failing that, for a
   * cross-product prefix, suffix_check on the stem under this prefix.
   */
  function PfxWordSpec(s: Settings, st: Table, e: AffEntry, q: PfxQuery, ctx: Ctx): Option<Hit>
  {
    if q.start + q.len > |q.word| then None
    else
      match PfxDirectSpec(e, s.fullstrip, s.dict, s.needaffix, q.word, q.start, q.len, q.needflag)
      case Some(h) => Some(Hit(h, ctx))
      case None =>
        if e.cross && PfxStemFits(e, s.fullstrip, q.len) &&
           PfxTest(e.conds, e.numconds, PfxStem(e, q.word, q.start, q.len)) then
          var stem := PfxStem(e, q.word, q.start, q.len);
          SuffixCheckSpec(s, st, SfxQuery(stem, 0, |stem|, true, Some(e), 0, q.needflag, q.inc), ctx)
        else None
  }

  /** Trying prefix entry x in prefix_check: a hit records the prefix. */
  function PfxAt(s: Settings, pt: Table, st: Table, q: PfxQuery, ctx: Ctx, x: int): Option<Hit>
  {
    if x < 0 || x >= |pt.entries| then None
    else
      var e := pt.entries[x];
      if !PfxAllowed(s, e, q.inc) then None
      else
        match PfxWordSpec(s, st, e, q, ctx)
        case None => None
        case Some(h) => Some(Hit(h.he, h.ctx.(pfx := Some(e))))
  }

  function PfxProbe(s: Settings, pt: Table, st: Table, q: PfxQuery, ctx: Ctx): int -> Option<Hit>
  {
    x => PfxAt(s, pt, st, q, ctx, x)
  }

  /** What prefix_check and prefix_check_twosfx clear first. */
  function Reset(ctx: Ctx): Ctx
  {
    ctx.(pfx := None, sfxappnd := None)
  }

  /** A validator's result from the hit of its search, if any. */
  function Settle(h: Option<Hit>, ctx: Ctx): (o: Outcome)
    ensures o.rv.None? ==> o.ctx == ctx
  {
    match h
    case Some(x) => Outcome(Some(x.he), x.ctx)
    case None => Outcome(None, ctx)
  }

  /** prefix_check: the empty prefixes first, then the chain of the first character, searched forward. */
  function PrefixCheckSpec(s: Settings, pt: Table, st: Table, q: PfxQuery, ctx: Ctx): Outcome
  {
    var c0 := Reset(ctx);
    var z := FirstHit(PfxProbe(s, pt, st, q, c0), ZeroList(pt.keys));
    Settle(if z.Some? || q.start >= |q.word| then z else PfxIndexedSpec(s, pt, st, q, c0), c0)
  }

  function PfxIndexedSpec(s: Settings, pt: Table, st: Table, q: PfxQuery, ctx: Ctx): Option<Hit>
    requires q.start < |q.word|
  {
    FirstHit(PfxProbe(s, pt, st, q, ctx), Searched(pt.keys, q.word[q.start], q.word[q.start..]))
  }

  method PfxAllowedTest(s: Settings, e: AffEntry, inc: InCpd) returns (ok: bool)
    ensures SortedOpt(e.contclass) ==> (ok <==> PfxAllowed(s, e, inc))
  {
    var only := false;
    if s.onlyincompound != 0 {
      only := TestAff(e.contclass, s.onlyincompound);
    }
    var permit := false;
    if s.compoundpermitflag != 0 {
      permit := TestAff(e.contclass, s.compoundpermitflag);
    }
    ok := (inc != NOT || !only) && (inc != END || permit);
  }

  /** PfxEntry.checkword. */
  method PfxCheckWord(s: Settings, st: Table, e: AffEntry, q: PfxQuery, ctx: Ctx) returns (r: Option<Hit>)
    requires TableOk(st) && Usable(st.entries) && EntryOk(e) && q.start + q.len <= |q.word|
    ensures Sane(s, st) && SortedOpt(e.contclass) ==> r == PfxWordSpec(s, st, e, q, ctx)
  {
    var matched, stem, h := PfxCheckDirect(e, s.fullstrip, s.dict, s.needaffix, q.word, q.start, q.len, q.needflag);
    if h.Some? {
      return Some(Hit(h.value, ctx));
    }
    if matched && e.cross {
      r := SuffixCheck(s, st, SfxQuery(stem, 0, |stem|, true, Some(e), 0, q.needflag, q.inc), ctx);
    } else {
      r := None;
    }
  }

  /** One candidate of prefix_check: the tests on the entry, then PfxEntry.checkword. */
  method PfxTry(s: Settings, pt: Table, st: Table, q: PfxQuery, ctx: Ctx, x: int) returns (r: Option<Hit>)
    requires TableOk(st) && Usable(st.entries) && Usable(pt.entries) && 0 <= x < |pt.entries|
    requires q.start + q.len <= |q.word|
    ensures Sane(s, pt) && Sane(s, st) ==> r == PfxAt(s, pt, st, q, ctx, x)
    ensures r.Some? ==> r.value.ctx.pfx == Some(pt.entries[x])
  {
    var e := pt.entries[x];
    ghost var sorted := Sane(s, pt) && Sane(s, st);
    if sorted {
      assert SortedOpt(e.contclass);
    }
    var ok := PfxAllowedTest(s, e, q.inc);
    if !ok {
      return None;
    }
    var h := PfxCheckWord(s, st, e, q, ctx);
    if h.None? {
      return None;
    }
    r := Some(Hit(h.value.he, h.value.ctx.(pfx := Some(e))));
  }

  /** The first loop of prefix_check, over pStart0. */
  method PfxZero(s: Settings, pt: Table, st: Table, q: PfxQuery, ctx: Ctx) returns (r: Option<Hit>)
    requires TableOk(pt) && TableOk(st) && Usable(pt.entries) && Usable(st.entries)
    requires q.start + q.len <= |q.word|
    ensures Sane(s, pt) && Sane(s, st) ==> r == FirstHit(PfxProbe(s, pt, st, q, ctx), ZeroList(pt.keys))
  {
    ghost var Z := ZeroList(pt.keys);
    ghost var f := PfxProbe(s, pt, st, q, ctx);
    ghost var sorted := Sane(s, pt) && Sane(s, st);
    var ptr := pt.start0;
    ghost var k := 0;
    assert Z[0..] == Z;
    while ptr != -1
      invariant 0 <= k <= |Z| && IsChain(pt.next, ptr, Z[k..])
      invariant sorted ==> FirstHit(f, Z) == FirstHit(f, Z[k..])
      decreases |Z| - k
    {
      ChainEnd(pt.next, ptr, Z, k);
      ChainStep(pt.next, ptr, Z, k);
      assert Z[k..][0] == Z[k] && Z[k..][1..] == Z[k + 1..];
      r := PfxTry(s, pt, st, q, ctx, ptr);
      if r.Some? {
        return;
      }
      ptr := pt.next[ptr];
      k := k + 1;
    }
    ChainEnd(pt.next, ptr, Z, k);
    assert Z[k..] == [];
    r := None;
  }

  /** One step of the second loop of prefix_check at chain position k. */
  method PfxStep(s: Settings, pt: Table, st: Table, q: PfxQuery, ctx: Ctx, ptr: int, ghost B: seq<int>, ghost k: nat)
    returns (r: Option<Hit>, next: int, ghost k2: nat)
    requires TableOk(st) && Usable(st.entries) && Usable(pt.entries)
    requires |pt.keys| == |pt.entries| && |pt.nextEQ| == |pt.entries| && |pt.nextNE| == |pt.entries|
    requires InRange(B, |pt.keys|) && Linked(pt.keys, pt.nextEQ, pt.nextNE, B)
    requires k < |B| && ptr == B[k] && q.start < |q.word| && q.start + q.len <= |q.word|
    ensures r.None? ==> k < k2 <= |B| && next == LinkAt(B, k2)
    ensures r.Some? ==> Subset(pt.keys[ptr], q.word[q.start..]) && r.value.ctx.pfx == Some(pt.entries[ptr])
    ensures Sane(s, pt) && Sane(s, st) ==>
      var f := PfxProbe(s, pt, st, q, ctx);
      var K := KeysAt(pt.keys, B);
      var W := q.word[q.start..];
      if r.Some? then r == FirstHit(f, Entries(B, Walk(K, W, k)))
      else FirstHit(f, Entries(B, Walk(K, W, k))) == FirstHit(f, Entries(B, Walk(K, W, k2)))
  {
    ghost var K := KeysAt(pt.keys, B);
    ghost var W := q.word[q.start..];
    assert pt.keys[ptr] == K[k];
    assert LinkedAt(B, K, pt.nextEQ, pt.nextNE, k);
    var fits := IsSubset(pt.keys[ptr], q.word, q.start);
    if fits {
      assert Walk(K, W, k) == [k] + Walk(K, W, EQPos(K, k));
      HitStep(PfxProbe(s, pt, st, q, ctx), B, k, Walk(K, W, EQPos(K, k)));
      r := PfxTry(s, pt, st, q, ctx, ptr);
      next, k2 := pt.nextEQ[ptr], EQPos(K, k);
    } else {
      assert Walk(K, W, k) == Walk(K, W, NEPos(K, k));
      r, next, k2 := None, pt.nextNE[ptr], NEPos(K, k);
    }
  }

  /** The second loop of prefix_check: the pruned search of chain B, from its head h. */
  method PfxWalk(s: Settings, pt: Table, st: Table, q: PfxQuery, ctx: Ctx, h: int, ghost B: seq<int>)
    returns (r: Option<Hit>)
    requires TableOk(st) && Usable(st.entries) && Usable(pt.entries)
    requires |pt.keys| == |pt.entries| && |pt.nextEQ| == |pt.entries| && |pt.nextNE| == |pt.entries|
    requires InRange(B, |pt.keys|) && Linked(pt.keys, pt.nextEQ, pt.nextNE, B)
    requires h == LinkAt(B, 0) && q.start < |q.word| && q.start + q.len <= |q.word|
    ensures Sane(s, pt) && Sane(s, st) ==>
      r == FirstHit(PfxProbe(s, pt, st, q, ctx), Entries(B, Walk(KeysAt(pt.keys, B), q.word[q.start..], 0)))
  {
    ghost var K := KeysAt(pt.keys, B);
    ghost var W := q.word[q.start..];
    ghost var f := PfxProbe(s, pt, st, q, ctx);
    ghost var sorted := Sane(s, pt) && Sane(s, st);
    var ptr := h;
    ghost var k: nat := 0;
    while ptr != -1
      invariant k <= |B| && ptr == LinkAt(B, k)
      invariant sorted ==> FirstHit(f, Entries(B, Walk(K, W, 0))) == FirstHit(f, Entries(B, Walk(K, W, k)))
      decreases |B| - k
    {
      r, ptr, k := PfxStep(s, pt, st, q, ctx, ptr, B, k);
      if r.Some? {
        return;
      }
    }
    r := None;
  }

  /** The general case of prefix_check: the chain of the first character of the word. */
  method PfxIndexed(s: Settings, pt: Table, st: Table, q: PfxQuery, ctx: Ctx) returns (r: Option<Hit>)
    requires TableOk(pt) && TableOk(st) && Usable(pt.entries) && Usable(st.entries)
    requires q.start < |q.word| && q.start + q.len <= |q.word|
    ensures Sane(s, pt) && Sane(s, st) ==> r == PfxIndexedSpec(s, pt, st, q, ctx)
  {
    var c := q.word[q.start];
    ghost var B := Bucket(pt.keys, c);
    ghost var W := q.word[q.start..];
    assert CoverAt(pt.keys, pt.start, c);
    if c !in pt.start {
      SearchedNone(pt.keys, c, W);
      return None;
    }
    assert ListAt(pt.keys, pt.next, pt.start, c) && LinkedChainAt(pt.keys, pt.nextEQ, pt.nextNE, pt.start, c);
    r := PfxWalk(s, pt, st, q, ctx, pt.start[c], B);
    assert PfxIndexedSpec(s, pt, st, q, ctx) == FirstHit(PfxProbe(s, pt, st, q, ctx), Searched(pt.keys, c, W));
    assert Searched(pt.keys, c, W) == Entries(B, Walk(KeysAt(pt.keys, B), W, 0));
  }

  /** prefix_check: on sorted flag sets its answer is PrefixCheckSpec. */
  method PrefixCheck(s: Settings, pt: Table, st: Table, q: PfxQuery, ctx: Ctx) returns (o: Outcome)
    requires TableOk(pt) && TableOk(st) && Usable(pt.entries) && Usable(st.entries)
    requires q.start < |q.word| && q.start + q.len <= |q.word|
    ensures Sane(s, pt) && Sane(s, st) ==> o == PrefixCheckSpec(s, pt, st, q, ctx)
  {
    var c0 := Reset(ctx);
    var r := PfxZero(s, pt, st, q, c0);
    if r.None? {
      r := PfxIndexed(s, pt, st, q, c0);
    }
    o := Settle(r, c0);
  }

  // ---------------------------------------------------------------------
  // prefix_check_twosfx and PfxEntry.check_twosfx

  /** PfxEntry.check_twosfx: strip the prefix, then suffix_check_twosfx on the stem under it. */
  function PfxTwoWordSpec(s: Settings, st: Table, e: AffEntry, q: PfxQuery, ctx: Ctx): Option<Hit>
  {
    if q.start + q.len > |q.word| || !PfxStemFits(e, s.fullstrip, q.len) ||
       q.len - |e.appnd| + |e.strip| < e.numconds then None
    else
      var stem := PfxStem(e, q.word, q.start, q.len);
      if !PfxTest(e.conds, e.numconds, stem) || !e.cross || q.inc == BEGIN then None
      else SuffixCheckTwoSpec(s, st, TwoQuery(stem, 0, |stem|, true, Some(e), q.needflag), ctx)
  }

  /** Trying prefix entry x in prefix_check_twosfx: only a hit through the index records the prefix. */
  function PfxTwoAt(s: Settings, pt: Table, st: Table, q: PfxQuery, ctx: Ctx, zero: bool, x: int): Option<Hit>
  {
    if x < 0 || x >= |pt.entries| then None
    else
      var e := pt.entries[x];
      match PfxTwoWordSpec(s, st, e, q, ctx)
      case None => None
      case Some(h) => if zero then Some(h) else Some(Hit(h.he, h.ctx.(pfx := Some(e))))
  }

  function PfxTwoProbe(s: Settings, pt: Table, st: Table, q: PfxQuery, ctx: Ctx, zero: bool): int -> Option<Hit>
  {
    x => PfxTwoAt(s, pt, st, q, ctx, zero, x)
  }

  /** prefix_check_twosfx: the empty prefixes first, then the chain of the first character. */
  function PrefixCheckTwoSpec(s: Settings, pt: Table, st: Table, q: PfxQuery, ctx: Ctx): Outcome
  {
    var c0 := Reset(ctx);
    var z := FirstHit(PfxTwoProbe(s, pt, st, q, c0, true), ZeroList(pt.keys));
    Settle(if z.Some? || q.start >= |q.word| then z else PfxTwoIndexedSpec(s, pt, st, q, c0), c0)
  }

  function PfxTwoIndexedSpec(s: Settings, pt: Table, st: Table, q: PfxQuery, ctx: Ctx): Option<Hit>
    requires q.start < |q.word|
  {
    FirstHit(PfxTwoProbe(s, pt, st, q, ctx, false), Searched(pt.keys, q.word[q.start], q.word[q.start..]))
  }

  /** PfxEntry.check_twosfx. */
  method PfxCheckTwoSfx(s: Settings, st: Table, e: AffEntry, q: PfxQuery, ctx: Ctx) returns (r: Option<Hit>)
    requires TableOk(st) && Usable(st.entries) && EntryOk(e) && q.start + q.len <= |q.word|
    ensures Sane(s, st) && SortedOpt(e.contclass) ==> r == PfxTwoWordSpec(s, st, e, q, ctx)
  {
    var tmpl := q.len - |e.appnd|;
    if !((tmpl > 0 || (tmpl == 0 && s.fullstrip)) && tmpl + |e.strip| >= e.numconds) {
      return None;
    }
    var stem := PfxBuildStem(e, q.word, q.start, q.len);
    var ok := PrefixTestCondition(e.conds, e.numconds, stem);
    if !ok || !e.cross || q.inc == BEGIN {
      return None;
    }
    r := SuffixCheckTwo(s, st, TwoQuery(stem, 0, |stem|, true, Some(e), q.needflag), ctx);
  }

  method PfxTwoTry(s: Settings, pt: Table, st: Table, q: PfxQuery, ctx: Ctx, zero: bool, x: int)
    returns (r: Option<Hit>)
    requires TableOk(st) && Usable(st.entries) && Usable(pt.entries) && 0 <= x < |pt.entries|
    requires q.start + q.len <= |q.word|
    ensures Sane(s, pt) && Sane(s, st) ==> r == PfxTwoAt(s, pt, st, q, ctx, zero, x)
  {
    var e := pt.entries[x];
    ghost var sorted := Sane(s, pt) && Sane(s, st);
    if sorted {
      assert SortedOpt(e.contclass);
    }
    var h := PfxCheckTwoSfx(s, st, e, q, ctx);
    if h.None? || zero {
      return h;
    }
    r := Some(Hit(h.value.he, h.value.ctx.(pfx := Some(e))));
  }

  /** The first loop of prefix_check_twosfx, over pStart0. */
  method PfxTwoZero(s: Settings, pt: Table, st: Table, q: PfxQuery, ctx: Ctx) returns (r: Option<Hit>)
    requires TableOk(pt) && TableOk(st) && Usable(pt.entries) && Usable(st.entries)
    requires q.start + q.len <= |q.word|
    ensures Sane(s, pt) && Sane(s, st) ==> r == FirstHit(PfxTwoProbe(s, pt, st, q, ctx, true), ZeroList(pt.keys))
  {
    ghost var Z := ZeroList(pt.keys);
    ghost var f := PfxTwoProbe(s, pt, st, q, ctx, true);
    ghost var sorted := Sane(s, pt) && Sane(s, st);
    var ptr := pt.start0;
    ghost var k := 0;
    assert Z[0..] == Z;
    while ptr != -1
      invariant 0 <= k <= |Z| && IsChain(pt.next, ptr, Z[k..])
      invariant sorted ==> FirstHit(f, Z) == FirstHit(f, Z[k..])
      decreases |Z| - k
    {
      ChainEnd(pt.next, ptr, Z, k);
      ChainStep(pt.next, ptr, Z, k);
      assert Z[k..][0] == Z[k] && Z[k..][1..] == Z[k + 1..];
      r := PfxTwoTry(s, pt, st, q, ctx, true, ptr);
      if r.Some? {
        return;
      }
      ptr := pt.next[ptr];
      k := k + 1;
    }
    ChainEnd(pt.next, ptr, Z, k);
    assert Z[k..] == [];
    r := None;
  }

  /** One step of the second loop of prefix_check_twosfx at chain position k. */
  method PfxTwoStep(s: Settings, pt: Table, st: Table, q: PfxQuery, ctx: Ctx, ptr: int, ghost B: seq<int>, ghost k: nat)
    returns (r: Option<Hit>, next: int, ghost k2: nat)
    requires TableOk(st) && Usable(st.entries) && Usable(pt.entries)
    requires |pt.keys| == |pt.entries| && |pt.nextEQ| == |pt.entries| && |pt.nextNE| == |pt.entries|
    requires InRange(B, |pt.keys|) && Linked(pt.keys, pt.nextEQ, pt.nextNE, B)
    requires k < |B| && ptr == B[k] && q.start < |q.word| && q.start + q.len <= |q.word|
    ensures r.None? ==> k < k2 <= |B| && next == LinkAt(B, k2)
    ensures Sane(s, pt) && Sane(s, st) ==>
      var f := PfxTwoProbe(s, pt, st, q, ctx, false);
      var K := KeysAt(pt.keys, B);
      var W := q.word[q.start..];
      if r.Some? then r == FirstHit(f, Entries(B, Walk(K, W, k)))
      else FirstHit(f, Entries(B, Walk(K, W, k))) == FirstHit(f, Entries(B, Walk(K, W, k2)))
  {
    ghost var K := KeysAt(pt.keys, B);
    ghost var W := q.word[q.start..];
    assert pt.keys[ptr] == K[k];
    assert LinkedAt(B, K, pt.nextEQ, pt.nextNE, k);
    var fits := IsSubset(pt.keys[ptr], q.word, q.start);
    if fits {
      assert Walk(K, W, k) == [k] + Walk(K, W, EQPos(K, k));
      HitStep(PfxTwoProbe(s, pt, st, q, ctx, false), B, k, Walk(K, W, EQPos(K, k)));
      r := PfxTwoTry(s, pt, st, q, ctx, false, ptr);
      next, k2 := pt.nextEQ[ptr], EQPos(K, k);
    } else {
      assert Walk(K, W, k) == Walk(K, W, NEPos(K, k));
      r, next, k2 := None, pt.nextNE[ptr], NEPos(K, k);
    }
  }

  /** The second loop of prefix_check_twosfx: the pruned search of chain B, from its head h. */
  method PfxTwoWalk(s: Settings, pt: Table, st: Table, q: PfxQuery, ctx: Ctx, h: int, ghost B: seq<int>)
    returns (r: Option<Hit>)
    requires TableOk(st) && Usable(st.entries) && Usable(pt.entries)
    requires |pt.keys| == |pt.entries| && |pt.nextEQ| == |pt.entries| && |pt.nextNE| == |pt.entries|
    requires InRange(B, |pt.keys|) && Linked(pt.keys, pt.nextEQ, pt.nextNE, B)
    requires h == LinkAt(B, 0) && q.start < |q.word| && q.start + q.len <= |q.word|
    ensures Sane(s, pt) && Sane(s, st) ==>
      r == FirstHit(PfxTwoProbe(s, pt, st, q, ctx, false), Entries(B, Walk(KeysAt(pt.keys, B), q.word[q.start..], 0)))
  {
    ghost var K := KeysAt(pt.keys, B);
    ghost var W := q.word[q.start..];
    ghost var f := PfxTwoProbe(s, pt, st, q, ctx, false);
    ghost var sorted := Sane(s, pt) && Sane(s, st);
    var ptr := h;
    ghost var k: nat := 0;
    while ptr != -1
      invariant k <= |B| && ptr == LinkAt(B, k)
      invariant sorted ==> FirstHit(f, Entries(B, Walk(K, W, 0))) == FirstHit(f, Entries(B, Walk(K, W, k)))
      decreases |B| - k
    {
      r, ptr, k := PfxTwoStep(s, pt, st, q, ctx, ptr, B, k);
      if r.Some? {
        return;
      }
    }
    r := None;
  }

  /** The general case of prefix_check_twosfx: the chain of the first character of the word. */
  method PfxTwoIndexed(s: Settings, pt: Table, st: Table, q: PfxQuery, ctx: Ctx) returns (r: Option<Hit>)
    requires TableOk(pt) && TableOk(st) && Usable(pt.entries) && Usable(st.entries)
    requires q.start < |q.word| && q.start + q.len <= |q.word|
    ensures Sane(s, pt) && Sane(s, st) ==> r == PfxTwoIndexedSpec(s, pt, st, q, ctx)
  {
    var c := q.word[q.start];
    ghost var B := Bucket(pt.keys, c);
    ghost var W := q.word[q.start..];
    assert CoverAt(pt.keys, pt.start, c);
    if c !in pt.start {
      SearchedNone(pt.keys, c, W);
      return None;
    }
    assert ListAt(pt.keys, pt.next, pt.start, c) && LinkedChainAt(pt.keys, pt.nextEQ, pt.nextNE, pt.start, c);
    r := PfxTwoWalk(s, pt, st, q, ctx, pt.start[c], B);
    assert PfxTwoIndexedSpec(s, pt, st, q, ctx) == FirstHit(PfxTwoProbe(s, pt, st, q, ctx, false), Searched(pt.keys, c, W));
    assert Searched(pt.keys, c, W) == Entries(B, Walk(KeysAt(pt.keys, B), W, 0));
  }

  /** prefix_check_twosfx: on sorted flag sets its answer is PrefixCheckTwoSpec. */
  method PrefixCheckTwo(s: Settings, pt: Table, st: Table, q: PfxQuery, ctx: Ctx) returns (o: Outcome)
    requires TableOk(pt) && TableOk(st) && Usable(pt.entries) && Usable(st.entries)
    requires q.start < |q.word| && q.start + q.len <= |q.word|
    ensures Sane(s, pt) && Sane(s, st) ==> o == PrefixCheckTwoSpec(s, pt, st, q, ctx)
  {
    var c0 := Reset(ctx);
    var r := PfxTwoZero(s, pt, st, q, c0);
    if r.None? {
      r := PfxTwoIndexed(s, pt, st, q, c0);
    }
    o := Settle(r, c0);
  }

  // ---------------------------------------------------------------------
  // affix_check

  /**
   * affix_check: prefixes (crossed with suffixes where allowed), then
   * suffixes; with continuation classes in the affix file, the context's
   * affixes are cleared and the two-level suffixes, then prefixes with
   * two-level suffixes, are tried.
   */
  function AffixCheckSpec(s: Settings, pt: Table, st: Table, q: PfxQuery, ctx: Ctx): Outcome
  {
    var o1 := PrefixCheckSpec(s, pt, st, q, ctx);
    if o1.rv.Some? then o1
    else
      var o2 := Settle(SuffixCheckSpec(s, st, SfxQuery(q.word, q.start, q.len, false, None, 0, q.needflag, q.inc), o1.ctx), o1.ctx);
      if !s.havecontclass then o2
      else
        var c3 := o2.ctx.(sfx := None, pfx := None);
        if o2.rv.Some? then Outcome(o2.rv, c3)
        else
          var o3 := Settle(SuffixCheckTwoSpec(s, st, TwoQuery(q.word, q.start, q.len, false, None, q.needflag), c3), c3);
          if o3.rv.Some? then o3
          else PrefixCheckTwoSpec(s, pt, st, PfxQuery(q.word, q.start, q.len, NOT, q.needflag), c3)
  }

  /** affix_check: on sorted flag sets its answer is AffixCheckSpec. */
  method AffixCheck(s: Settings, pt: Table, st: Table, q: PfxQuery, ctx: Ctx) returns (o: Outcome)
    requires TableOk(pt) && TableOk(st) && Usable(pt.entries) && Usable(st.entries)
    requires q.start < |q.word| && q.start + q.len <= |q.word|
    ensures Sane(s, pt) && Sane(s, st) ==> o == AffixCheckSpec(s, pt, st, q, ctx)
  {
    o := PrefixCheck(s, pt, st, q, ctx);
    if o.rv.Some? {
      return;
    }
    var h := SuffixCheck(s, st, SfxQuery(q.word, q.start, q.len, false, None, 0, q.needflag, q.inc), o.ctx);
    o := Settle(h, o.ctx);
    if s.havecontclass {
      var c3 := o.ctx.(sfx := None, pfx := None);
      if o.rv.Some? {
        return Outcome(o.rv, c3);
      }
      var h3 := SuffixCheckTwo(s, st, TwoQuery(q.word, q.start, q.len, false, None, q.needflag), c3);
      o := Settle(h3, c3);
      if o.rv.Some? {
        return;
      }
      o := PrefixCheckTwo(s, pt, st, PfxQuery(q.word, q.start, q.len, NOT, q.needflag), c3);
    }
  }

  // ---------------------------------------------------------------------
  // What the validators return

  lemma TwoAtFound(s: Settings, t: Table, q: TwoQuery, ctx: Ctx, zero: bool, x: int)
    requires TwoAt(s, t, q, ctx, zero, x).Some?
    ensures exists w :: Found(s, TwoAt(s, t, q, ctx, zero, x).value.he, w)
  {
    var e := t.entries[x];
    var stem := TwoStem(s, e, q).value;
    SuffixHitFound(s, t, InnerQuery(e, q, stem), ctx);
  }

  /** A root suffix_check_twosfx returns is a homonym of a stem in the dictionary. */
  lemma TwoHitFound(s: Settings, t: Table, q: TwoQuery, ctx: Ctx)
    ensures var r := SuffixCheckTwoSpec(s, t, q, ctx);
      r.Some? ==> exists w :: Found(s, r.value.he, w)
  {
    hide TwoIndexedSpec;
    var z := FirstHit(TwoProbe(s, t, q, ctx, true), ZeroList(t.keys));
    if z.Some? {
      var x := HitFrom(TwoProbe(s, t, q, ctx, true), ZeroList(t.keys));
      TwoAtFound(s, t, q, ctx, true, x);
    } else if 0 < q.len && q.start + q.len <= |q.word| {
      TwoIndexedFound(s, t, q, ctx);
    }
  }

  /** The indexed part of suffix_check_twosfx: a root it returns is a homonym of a stem in the dictionary. */
  lemma TwoIndexedFound(s: Settings, t: Table, q: TwoQuery, ctx: Ctx)
    requires 0 < q.len && q.start + q.len <= |q.word|
    ensures var r := TwoIndexedSpec(s, t, q, ctx);
      r.Some? ==> exists w :: Found(s, r.value.he, w)
  {
    hide SfxTwoWordSpec, Found, Searched, SuffixCheckSpec, SfxIndexedSpec, ListsOk, LinksOk, Sane, ZeroList;
    var last := q.start + q.len - 1;
    var xs := Searched(t.keys, q.word[last], Backward(q.word, last, q.len));
    if FirstHit(TwoProbe(s, t, q, ctx, false), xs).Some? {
      var x := HitFrom(TwoProbe(s, t, q, ctx, false), xs);
      TwoAtFound(s, t, q, ctx, false, x);
    }
  }

  /**
   * What trying one prefix entry yields: the entry is in the table, passes
   * the compound tests, is recorded as the prefix, and its checkword finds
   * the root, which is a homonym of a stem in the dictionary.
   */
  lemma PfxAtExplained(s: Settings, pt: Table, st: Table, q: PfxQuery, ctx: Ctx, x: int)
    requires PfxAt(s, pt, st, q, ctx, x).Some?
    ensures var h := PfxAt(s, pt, st, q, ctx, x).value;
      0 <= x < |pt.entries| && PfxAllowed(s, pt.entries[x], q.inc) && h.ctx.pfx == Some(pt.entries[x]) &&
      PfxWordSpec(s, st, pt.entries[x], q, ctx).Some? && PfxWordSpec(s, st, pt.entries[x], q, ctx).value.he == h.he &&
      exists w :: Found(s, h.he, w)
  {
    var e := pt.entries[x];
    var h := PfxWordSpec(s, st, e, q, ctx).value;
    match PfxDirectSpec(e, s.fullstrip, s.dict, s.needaffix, q.word, q.start, q.len, q.needflag)
    case Some(d) =>
      assert Found(s, h.he, PfxStem(e, q.word, q.start, q.len));
    case None =>
      var stem := PfxStem(e, q.word, q.start, q.len);
      SuffixHitFound(s, st, SfxQuery(stem, 0, |stem|, true, Some(e), 0, q.needflag, q.inc), ctx);
  }

  /**
   * A root prefix_check returns comes from the prefix it records: that
   * entry is in the table, passes the compound tests, and its checkword
   * finds the root; the root is a homonym of a stem in the dictionary.
   */
  lemma PrefixHitExplained(s: Settings, pt: Table, st: Table, q: PfxQuery, ctx: Ctx)
    ensures var o := PrefixCheckSpec(s, pt, st, q, ctx);
      o.rv.Some? ==> (o.ctx.pfx.Some? && o.ctx.pfx.value in pt.entries && PfxAllowed(s, o.ctx.pfx.value, q.inc) &&
        PfxWordSpec(s, st, o.ctx.pfx.value, q, Reset(ctx)).Some? &&
        PfxWordSpec(s, st, o.ctx.pfx.value, q, Reset(ctx)).value.he == o.rv.value &&
        exists w :: Found(s, o.rv.value, w))
  {
    var c0 := Reset(ctx);
    var o := PrefixCheckSpec(s, pt, st, q, ctx);
    var z := FirstHit(PfxProbe(s, pt, st, q, c0), ZeroList(pt.keys));
    if z.Some? {
      var x := HitFrom(PfxProbe(s, pt, st, q, c0), ZeroList(pt.keys));
      PfxAtExplained(s, pt, st, q, c0, x);
    } else if o.rv.Some? {
      var xs := Searched(pt.keys, q.word[q.start], q.word[q.start..]);
      var x := HitFrom(PfxProbe(s, pt, st, q, c0), xs);
      PfxAtExplained(s, pt, st, q, c0, x);
    }
  }

  lemma PfxTwoAtFound(s: Settings, pt: Table, st: Table, q: PfxQuery, ctx: Ctx, zero: bool, x: int)
    requires PfxTwoAt(s, pt, st, q, ctx, zero, x).Some?
    ensures exists w :: Found(s, PfxTwoAt(s, pt, st, q, ctx, zero, x).value.he, w)
  {
    var e := pt.entries[x];
    var stem := PfxStem(e, q.word, q.start, q.len);
    TwoHitFound(s, st, TwoQuery(stem, 0, |stem|, true, Some(e), q.needflag), ctx);
  }

  /** A root prefix_check_twosfx returns is a homonym of a stem in the dictionary. */
  lemma PrefixTwoHitFound(s: Settings, pt: Table, st: Table, q: PfxQuery, ctx: Ctx)
    ensures var o := PrefixCheckTwoSpec(s, pt, st, q, ctx);
      o.rv.Some? ==> exists w :: Found(s, o.rv.value, w)
  {
    var c0 := Reset(ctx);
    var o := PrefixCheckTwoSpec(s, pt, st, q, ctx);
    var z := FirstHit(PfxTwoProbe(s, pt, st, q, c0, true), ZeroList(pt.keys));
    if z.Some? {
      var x := HitFrom(PfxTwoProbe(s, pt, st, q, c0, true), ZeroList(pt.keys));
      PfxTwoAtFound(s, pt, st, q, c0, true, x);
    } else if o.rv.Some? {
      var xs := Searched(pt.keys, q.word[q.start], q.word[q.start..]);
      var x := HitFrom(PfxTwoProbe(s, pt, st, q, c0, false), xs);
      PfxTwoAtFound(s, pt, st, q, c0, false, x);
    }
  }

  /** Every root affix_check returns is a homonym of a stem in the dictionary; a miss returns nothing. */
  lemma AffixHitFound(s: Settings, pt: Table, st: Table, q: PfxQuery, ctx: Ctx)
    requires q.start + q.len <= |q.word|
    ensures var o := AffixCheckSpec(s, pt, st, q, ctx);
      o.rv.Some? ==> exists w :: Found(s, o.rv.value, w)
  {
    var o1 := PrefixCheckSpec(s, pt, st, q, ctx);
    PrefixHitExplained(s, pt, st, q, ctx);
    SuffixHitFound(s, st, SfxQuery(q.word, q.start, q.len, false, None, 0, q.needflag, q.inc), o1.ctx);
    var c3 := Settle(SuffixCheckSpec(s, st, SfxQuery(q.word, q.start, q.len, false, None, 0, q.needflag, q.inc), o1.ctx), o1.ctx).ctx.(sfx := None, pfx := None);
    TwoHitFound(s, st, TwoQuery(q.word, q.start, q.len, false, None, q.needflag), c3);
    PrefixTwoHitFound(s, pt, st, PfxQuery(q.word, q.start, q.len, NOT, q.needflag), c3);
  }

  // ---------------------------------------------------------------------
  // The inner length of SfxEntry.check_twosfx

  /** The stem dictionary of the example: "mi", carrying flag 1. */
  function MiDict(): Lookup
  {
    w => if w == "mi" then [HEntry("mi", Some([1]))] else []
  }

  /** The inner suffix of the example: "ke", flag 1, continuing with flag 2. */
  function KeInner(): AffEntry
  {
    AffEntry("ke", "", 0, "", true, 1, Some([2]))
  }

  /** The outer suffix of the example: "s" replacing "e", flag 2. */
  function SOuter(): AffEntry
  {
    AffEntry("s", "e", 0, "", true, 2, None)
  }

  /** The suffix table holding both, keyed by the reversed affixes. */
  function KsTable(): Table
  {
    Table([KeInner(), SOuter()], ["ek", "s"], [-1, -1], [-1, -1], [-1, -1], map['e' := 0, 's' := 1], -1)
  }

  function MiSettings(): Settings
  {
    Settings(false, 0, 0, 0, 0, {2}, true, MiDict())
  }

  function MiksQuery(): TwoQuery
  {
    TwoQuery("miks", 0, 4, false, None, 0)
  }

  lemma KsBuckets()
    ensures ZeroList(KsTable().keys) == [] && Bucket(KsTable().keys, 'k') == [] && Bucket(KsTable().keys, 'e') == [0]
  {
    KsNoEmpty(["ek", "s"]);
    KsNoK(["ek", "s"]);
    KsE(["ek", "s"]);
  }

  lemma KsNoEmpty(keys: seq<seq<char>>)
    requires keys == ["ek", "s"]
    ensures ZeroList(keys) == []
  {
    var k1 := keys[..1];
    assert k1 == ["ek"] && k1[..0] == [];
    assert NewestFirst(k1, EmptyKey) == [];
  }

  lemma KsNoK(keys: seq<seq<char>>)
    requires keys == ["ek", "s"]
    ensures Bucket(keys, 'k') == []
  {
    var k1 := keys[..1];
    assert k1 == ["ek"] && k1[..0] == [];
    assert Bucket(k1, 'k') == [];
  }

  lemma KsE(keys: seq<seq<char>>)
    requires keys == ["ek", "s"]
    ensures Bucket(keys, 'e') == [0]
  {
    var k1 := keys[..1];
    assert k1 == ["ek"] && k1[..0] == [];
    assert Bucket(k1, 'e') == [0];
  }

  lemma KsS(keys: seq<seq<char>>)
    requires keys == ["ek", "s"]
    ensures Bucket(keys, 's') == [1]
  {
    var k1 := keys[..1];
    assert k1 == ["ek"] && k1[..0] == [];
    assert Bucket(k1, 's') == [];
  }

  lemma KsOther(keys: seq<seq<char>>, c: char)
    requires keys == ["ek", "s"] && c != 'e' && c != 's'
    ensures Bucket(keys, c) == []
  {
    var k1 := keys[..1];
    assert k1 == ["ek"] && k1[..0] == [];
    assert Bucket(k1, c) == [];
  }

  /** A chain of one entry with null links is linked. */
  lemma LinkedSingle(keys: seq<seq<char>>, eq: seq<int>, ne: seq<int>, x: int)
    requires 0 <= x < |keys| && |eq| == |ne| == |keys| && eq[x] == -1 && ne[x] == -1
    ensures Linked(keys, eq, ne, [x])
  {
    var K := KeysAt(keys, [x]);
    assert EQPos(K, 0) == 1 && NEPos(K, 0) == 1;
  }

  lemma KsChainAt(t: Table, c: char)
    requires t == KsTable()
    ensures CoverAt(t.keys, t.start, c) && ListAt(t.keys, t.next, t.start, c) &&
            LinkedChainAt(t.keys, t.nextEQ, t.nextNE, t.start, c)
  {
    if c == 'e' {
      KsE(t.keys);
      LinkedSingle(t.keys, t.nextEQ, t.nextNE, 0);
    } else if c == 's' {
      KsS(t.keys);
      LinkedSingle(t.keys, t.nextEQ, t.nextNE, 1);
    } else {
      KsOther(t.keys, c);
    }
  }

  /** The example table is one the loader builds for these two suffixes. */
  lemma KsTableOk()
    ensures TableOk(KsTable())
  {
    var t := KsTable();
    KsNoEmpty(t.keys);
    forall c
      ensures CoverAt(t.keys, t.start, c) && ListAt(t.keys, t.next, t.start, c) &&
              LinkedChainAt(t.keys, t.nextEQ, t.nextNE, t.start, c)
    {
      KsChainAt(t, c);
    }
  }

  lemma MiksStem()
    ensures TwoStem(MiSettings(), SOuter(), MiksQuery()) == Some("mike")
  {
    assert SfxStem(SOuter(), "miks", 0, 4) == "mike" by { assert "miks"[0..3] == "mik"; }
  }

  lemma MikeSearch()
    ensures Searched(KsTable().keys, 'e', Backward("mike", 3, 4)) == [0]
  {
    KsBuckets();
    var W := Backward("mike", 3, 4);
    assert W == "ekim";
    var K := KeysAt(KsTable().keys, [0]);
    assert K == ["ek"];
    assert Subset(K[0], W);
    assert Walk(K, W, 0) == [0];
  }

  lemma MikeHomonym()
    ensures SfxCheckWordSpec(KeInner(), false, MiDict(), "mike", 0, 4, false, None, 2, 0, 0) == Some(HEntry("mi", Some([1])))
  {
    var he := HEntry("mi", Some([1]));
    assert SfxStem(KeInner(), "mike", 0, 4) == "mi";
    assert MiDict()("mi") == [he];
    FirstWhereAt((h: HEntry) => SfxHomonymOk(KeInner(), h, false, None, 2, 0, 0), [he], 0);
  }

  /** The example's flag sets are sorted: the validators' answers are their specifications. */
  lemma MiSane()
    ensures Sane(MiSettings(), KsTable())
  {
    forall w ensures ChainSorted(MiDict()(w)) {
    }
  }

  /**
   * "miks" is "mi" with the inner suffix "ke" and the outer suffix "s"
   * stripping "e". As SfxEntry.check_twosfx is written, the inner search
   * is over "mik", whose last character starts no chain, and finds
   * nothing.
   */
  lemma TwoSfxAsWrittenMisses(ctx: Ctx)
    ensures SfxTwoWordAsWritten(MiSettings(), KsTable(), SOuter(), MiksQuery(), ctx) == None
  {
    MiksStem();
    var wq := InnerQueryAsWritten(SOuter(), MiksQuery(), "mike");
    assert wq.len == 3 && wq.start == 0 && wq.word == "mike";
    MikInnerMisses(wq, ctx);
  }

  /** The inner search over the first three characters of "mike" finds nothing. */
  lemma MikInnerMisses(q: SfxQuery, ctx: Ctx)
    requires q.len == 3 && q.start == 0 && q.word == "mike"
    ensures SuffixCheckSpec(MiSettings(), KsTable(), q, ctx) == None
  {
    KsBuckets();
    assert Searched(KsTable().keys, 'k', Backward("mike", 2, 3)) == [];
  }

  /** With the inner length corrected, the inner search is over "mike" and finds "mi". */
  lemma TwoSfxCorrectedFinds(ctx: Ctx)
    ensures var r := SfxTwoWordSpec(MiSettings(), KsTable(), SOuter(), MiksQuery(), ctx);
      r.Some? && r.value.he == HEntry("mi", Some([1]))
  {
    MiksStem();
    var iq := InnerQuery(SOuter(), MiksQuery(), "mike");
    assert iq == SfxQuery("mike", 0, 4, false, None, 2, 0, NOT);
    MikeInner(ctx);
  }

  /** The corrected inner search over "mike" finds "mi" through the suffix "ke". */
  lemma MikeInner(ctx: Ctx)
    ensures var r := SuffixCheckSpec(MiSettings(), KsTable(), SfxQuery("mike", 0, 4, false, None, 2, 0, NOT), ctx);
      r.Some? && r.value.he == HEntry("mi", Some([1]))
  {
    KsBuckets();
    MikeSearch();
    MikeHomonym();
    assert SfxAt(MiSettings(), KsTable(), SfxQuery("mike", 0, 4, false, None, 2, 0, NOT), ctx, false, 0).Some?;
  }
}
