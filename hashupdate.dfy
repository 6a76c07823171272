/**
 * How the updates of the dictionary hash table (HashMgr.cs add_word,
 * Remove, remove_forbidden_flag) change its meaning: the end of a
 * homonym chain, the entries after an addition, and the proofs that the
 * table invariant survives appending an entry or changing the flags of
 * entries in place.
 */
module HashUpdate {
  import opened Base
  import opened Flags
  import opened HashLists
  import opened HashSpec

  // ---------------------------------------------------------------------
  // The end of a homonym chain

  /** The last entry holding w, or -1: the entry whose next_homonym is null. */
  function Last(es: seq<HEntry>, w: string): int
  {
    if es == [] then -1 else if es[|es| - 1].word == w then |es| - 1 else Last(es[..|es| - 1], w)
  }

  lemma {:induction false} LastSpec(es: seq<HEntry>, w: string)
    ensures Last(es, w) == -1 <==> forall i :: 0 <= i < |es| ==> es[i].word != w
    ensures Last(es, w) != -1 ==>
      0 <= Last(es, w) < |es| && es[Last(es, w)].word == w && forall i :: Last(es, w) < i < |es| ==> es[i].word != w
  {
    if es != [] && es[|es| - 1].word != w {
      var p := es[..|es| - 1];
      LastSpec(p, w);
      assert forall i :: 0 <= i < |p| ==> p[i] == es[i];
    }
  }

  /** The first and the last homonym exist together. */
  lemma FindLast(es: seq<HEntry>, w: string)
    ensures Find(es, w) == -1 <==> Last(es, w) == -1
    ensures Find(es, w) <= Last(es, w)
  {
    FindSpec(es, w);
    LastSpec(es, w);
  }

  /** An entry has no next homonym exactly when it is the last entry holding its word. */
  lemma LastIsEnd(es: seq<HEntry>, e: int)
    requires 0 <= e < |es|
    ensures NextSame(es, e) == -1 <==> e == Last(es, es[e].word)
  {
    var w := es[e].word;
    ScanSpec(es, w, e + 1);
    LastSpec(es, w);
    if e == Last(es, w) {
      ScanMiss(es, w, e + 1);
    }
  }

  // ---------------------------------------------------------------------
  // Appending an entry

  lemma {:induction false} ScanAppend(es: seq<HEntry>, x: HEntry, w: string, j: nat)
    requires j <= |es|
    ensures Scan(es + [x], w, j) ==
      (if Scan(es, w, j) != -1 then Scan(es, w, j) else if x.word == w then |es| else -1)
    decreases |es| - j
  {
    if j < |es| {
      assert (es + [x])[j] == es[j];
      ScanAppend(es, x, w, j + 1);
    } else {
      assert (es + [x])[j] == x;
    }
  }

  /**
   * After appending x, the next homonym of an old entry is unchanged,
   * except that the last entry holding x's word now leads to x.
   */
  lemma NextSameAppend(es: seq<HEntry>, x: HEntry, e: int)
    requires 0 <= e < |es|
    ensures NextSame(es + [x], e) ==
      (if NextSame(es, e) != -1 then NextSame(es, e) else if x.word == es[e].word then |es| else -1)
  {
    assert (es + [x])[e] == es[e];
    ScanAppend(es, x, es[e].word, e + 1);
  }

  /** The next_homonym links with entry L (when there is one) now leading to n. */
  function Relink(nh: seq<int>, L: int, n: int): seq<int>
  {
    if 0 <= L < |nh| then nh[L := n] else nh
  }

  /** Appending x and linking the old last homonym of x's word to it keeps every next_homonym right. */
  lemma HomonymsAppend(es: seq<HEntry>, nh: seq<int>, x: HEntry)
    requires Homonyms(es, nh)
    ensures var L := Last(es, x.word);
      Homonyms(es + [x], Relink(nh, L, |es|) + [-1])
  {
    var L := Last(es, x.word);
    LastSpec(es, x.word);
    var es' := es + [x];
    var nh' := Relink(nh, L, |es|) + [-1];
    forall e | 0 <= e < |es'| ensures HomonymAt(es', nh', e) {
      if e == |es| {
        assert NextSame(es', e) == Scan(es', x.word, |es| + 1) == -1;
      } else {
        assert HomonymAt(es, nh, e);
        NextSameAppend(es, x, e);
        LastIsEnd(es, e);
      }
    }
  }

  /**
   * Appending the entry x at the tail of the chain of its bucket (or as the
   * head of an empty bucket) keeps the table consistent, with the old last
   * homonym of x's word linked to x.
   */
  lemma AppendConsistent(heads: seq<int>, es: seq<HEntry>, nx: seq<int>, nh: seq<int>, chains: seq<seq<int>>, x: HEntry)
    requires Consistent(heads, es, nx, nh, chains) && x.hash == HashOf(x.word)
    ensures var b := Bucket(x.hash, |chains|); var n := |es|;
      Consistent(if chains[b] == [] then heads[b := n] else heads, es + [x], LinkTail(nx, chains[b], n) + [-1],
                 Relink(nh, Last(es, x.word), n) + [-1], chains[b := chains[b] + [n]])
  {
    var b := Bucket(x.hash, |chains|);
    var n := |es|;
    AppendKeeps(nx, chains, b);
    HomonymsAppend(es, nh, x);
    AppendPlaced(es, chains, x);
    AppendOrdered(es, chains, x);
    forall e | 0 <= e < n + 1 ensures HashedAt(es + [x], e) {
      if e < n {
        assert HashedAt(es, e);
      }
    }
    var heads' := if chains[b] == [] then heads[b := n] else heads;
    forall c | 0 <= c < |chains| ensures heads'[c] == Head(chains[b := chains[b] + [n]][c]) {
      assert heads[c] == Head(chains[c]);
    }
  }

  lemma AppendPlaced(es: seq<HEntry>, chains: seq<seq<int>>, x: HEntry)
    requires Placed(es, chains)
    ensures Placed(es + [x], chains[Bucket(x.hash, |chains|) := chains[Bucket(x.hash, |chains|)] + [|es|]])
  {
    var b := Bucket(x.hash, |chains|);
    var n := |es|;
    var es' := es + [x];
    var C := chains[b := chains[b] + [n]];
    forall c, k | 0 <= c < |C| && 0 <= k < |C[c]| ensures InBucket(es', C, c, k) {
      if !(c == b && k == |chains[b]|) {
        assert C[c][k] == chains[c][k];
        assert InBucket(es, chains, c, k);
      }
    }
    forall e | 0 <= e < |es'| ensures Chained(es', C, e) {
      if e < n {
        assert Chained(es, chains, e);
      } else {
        assert C[b][|chains[b]|] == n;
      }
    }
  }

  lemma AppendOrdered(es: seq<HEntry>, chains: seq<seq<int>>, x: HEntry)
    requires Placed(es, chains) && Ordered(es, chains)
    ensures Ordered(es + [x], chains[Bucket(x.hash, |chains|) := chains[Bucket(x.hash, |chains|)] + [|es|]])
  {
    var b := Bucket(x.hash, |chains|);
    var n := |es|;
    var es' := es + [x];
    var C := chains[b := chains[b] + [n]];
    forall c | 0 <= c < |C| ensures OrderedSeq(es', C[c]) {
      assert OrderedSeq(es, chains[c]);
      forall k | 0 <= k < |chains[c]| ensures chains[c][k] < n {
        assert InBucket(es, chains, c, k);
      }
    }
  }

  // ---------------------------------------------------------------------
  // Changing entries in place

  /** Two arenas whose entries hold the same words and hash codes, position by position. */
  ghost predicate SameKeys(es: seq<HEntry>, fs: seq<HEntry>)
  {
    |es| == |fs| && forall i :: 0 <= i < |es| ==> es[i].word == fs[i].word && es[i].hash == fs[i].hash
  }

  lemma {:induction false} ScanSameKeys(es: seq<HEntry>, fs: seq<HEntry>, w: string, j: nat)
    requires SameKeys(es, fs)
    ensures Scan(es, w, j) == Scan(fs, w, j)
    decreases |es| - j
  {
    if j < |es| {
      ScanSameKeys(es, fs, w, j + 1);
    }
  }

  /** The invariant reads only the words and hash codes of the entries: flags and data may change freely. */
  lemma KeysKeepConsistent(heads: seq<int>, es: seq<HEntry>, fs: seq<HEntry>, nx: seq<int>, nh: seq<int>, chains: seq<seq<int>>)
    requires Consistent(heads, es, nx, nh, chains) && SameKeys(es, fs)
    ensures Consistent(heads, fs, nx, nh, chains)
  {
    forall c, k | 0 <= c < |chains| && 0 <= k < |chains[c]| ensures InBucket(fs, chains, c, k) {
      assert InBucket(es, chains, c, k);
    }
    forall e | 0 <= e < |fs| ensures Chained(fs, chains, e) && HashedAt(fs, e) {
      assert Chained(es, chains, e) && HashedAt(es, e);
    }
    forall c | 0 <= c < |chains| ensures OrderedSeq(fs, chains[c]) {
      assert OrderedSeq(es, chains[c]);
    }
    forall e | 0 <= e < |fs| ensures HomonymAt(fs, nh, e) {
      assert HomonymAt(es, nh, e);
      ScanSameKeys(es, fs, es[e].word, e + 1);
    }
  }

  // ---------------------------------------------------------------------
  // The chain walk of add_word

  /** Position k of chain c is the last homonym L of w exactly when it holds w and has no next homonym. */
  ghost predicate EndAt(es: seq<HEntry>, nh: seq<int>, c: seq<int>, k: int, w: string, L: int)
    requires 0 <= k < |c|
  {
    0 <= c[k] < |es| == |nh| && ((es[c[k]].word == w && nh[c[k]] == -1) <==> c[k] == L)
  }

  /**
   * What the walk of add_word along chain c needs: the chain is walkable
   * for w, has no repeated entry, meets L at the one position holding w
   * without a next homonym, and ends with L when its tail holds w.
   */
  ghost predicate Addable(es: seq<HEntry>, nx: seq<int>, nh: seq<int>, c: seq<int>, w: string, hv: int, L: int)
  {
    Walkable(es, nx, c, w, hv) && |nh| == |es| &&
    (forall k1, k2 :: 0 <= k1 < k2 < |c| ==> c[k1] != c[k2]) &&
    (forall k :: 0 <= k < |c| ==> EndAt(es, nh, c, k, w, L)) &&
    (L == -1 || L in c) &&
    (L != -1 ==> 0 <= L < |es| && es[L].word == w) &&
    (c != [] && 0 <= c[|c| - 1] < |es| && es[c[|c| - 1]].word == w ==> c[|c| - 1] == L)
  }

  /** The chain of w's bucket in a consistent table is addable for w and its last homonym. */
  lemma AddableChain(heads: seq<int>, es: seq<HEntry>, nx: seq<int>, nh: seq<int>, chains: seq<seq<int>>, w: string)
    requires Consistent(heads, es, nx, nh, chains)
    ensures var b := Bucket(HashOf(w), |chains|);
      Addable(es, nx, nh, chains[b], w, HashOf(w), Last(es, w)) && heads[b] == Head(chains[b])
  {
    var b := Bucket(HashOf(w), |chains|);
    var c := chains[b];
    var L := Last(es, w);
    ChainWalkable(heads, es, nx, nh, chains, b, w);
    LastSpec(es, w);
    forall k1, k2 | 0 <= k1 < k2 < |c| ensures c[k1] != c[k2] {
    }
    forall k | 0 <= k < |c| ensures EndAt(es, nh, c, k, w, L) {
      assert InBucket(es, chains, b, k);
      assert HomonymAt(es, nh, c[k]);
      LastIsEnd(es, c[k]);
    }
    if L != -1 {
      InItsBucket(es, chains, w, L);
    }
    if c != [] && 0 <= c[|c| - 1] < |es| && es[c[|c| - 1]].word == w {
      var t := c[|c| - 1];
      forall e | 0 <= e < |es| && es[e].word == w ensures e <= t {
        InItsBucket(es, chains, w, e);
        var k2 :| 0 <= k2 < |c| && c[k2] == e;
        assert OrderedSeq(es, c);
        assert InBucket(es, chains, b, k2);
      }
      ScanMiss(es, w, t + 1);
      LastIsEnd(es, t);
    }
  }

  // ---------------------------------------------------------------------
  // add_word

  /**
   * The entries after add_word of the prepared entry x. When no entry holds
   * x's word, x is appended. Otherwise the last homonym L decides: a hidden
   * form (onlyupcase) is then not added at all; a visible word takes over
   * the flags of L when L is a hidden ONLYUPCASE form, and is appended as
   * L's next homonym when it is not.
   */
  function Added(es: seq<HEntry>, x: HEntry, onlyupcase: bool): seq<HEntry>
  {
    var L := Last(es, x.word);
    if L == -1 then es + [x]
    else if onlyupcase then es
    else if 0 <= L < |es| && Probe(es[L].astr, ONLYUPCASEFLAG) then es[L := es[L].(astr := x.astr)]
    else es + [x]
  }

  /** After a visible addition the word is found: at its old first homonym, or at the new entry. */
  lemma AddedFinds(es: seq<HEntry>, x: HEntry)
    ensures Find(Added(es, x, false), x.word) == (if Find(es, x.word) == -1 then |es| else Find(es, x.word))
  {
    var w := x.word;
    FindLast(es, w);
    LastSpec(es, w);
    var r := Added(es, x, false);
    if Find(es, w) == -1 {
      ScanAppend(es, x, w, 0);
    } else if r == es + [x] {
      ScanAppend(es, x, w, 0);
    } else {
      ScanSameKeys(es, r, w, 0);
    }
  }

  /** A hidden capitalised form is added only when no entry holds its word. */
  lemma AddedHidden(es: seq<HEntry>, x: HEntry)
    ensures Added(es, x, true) == (if Find(es, x.word) == -1 then es + [x] else es)
  {
    FindLast(es, x.word);
  }

  /**
   * A visible addition of a word that is present either takes over the
   * flags of the last homonym, which still holds its word and data, or
   * becomes the new last homonym, the next homonym of the old one.
   */
  lemma AddedHomonym(es: seq<HEntry>, x: HEntry)
    requires Last(es, x.word) != -1
    ensures var L := Last(es, x.word); var r := Added(es, x, false);
      0 <= L < |es| &&
      (Probe(es[L].astr, ONLYUPCASEFLAG) ==> |r| == |es| && r[L] == es[L].(astr := x.astr) && SameKeys(es, r)) &&
      (!Probe(es[L].astr, ONLYUPCASEFLAG) ==> r == es + [x] && NextSame(r, L) == |es| && Last(r, x.word) == |es|)
  {
    var L := Last(es, x.word);
    LastSpec(es, x.word);
    var r := Added(es, x, false);
    if !Probe(es[L].astr, ONLYUPCASEFLAG) {
      LastIsEnd(es, L);
      NextSameAppend(es, x, L);
      assert r[|r| - 1] == x;
    }
  }

  /** An addition never loses a word: a word found before is found after. */
  lemma AddedKeeps(es: seq<HEntry>, x: HEntry, onlyupcase: bool, w: string)
    requires Find(es, w) != -1
    ensures Find(Added(es, x, onlyupcase), w) != -1
  {
    var L := Last(es, x.word);
    if L == -1 || (!onlyupcase && !(0 <= L < |es| && Probe(es[L].astr, ONLYUPCASEFLAG))) {
      ScanAppend(es, x, w, 0);
    } else if !onlyupcase {
      var r := es[L := es[L].(astr := x.astr)];
      assert SameKeys(es, r);
      ScanSameKeys(es, r, w, 0);
    }
  }

  /** The bucket add_word appends x to, with the facts its chain walk starts from. */
  lemma AddStart(heads: seq<int>, es: seq<HEntry>, nx: seq<int>, nh: seq<int>, chains: seq<seq<int>>, x: HEntry, b: int)
    requires Consistent(heads, es, nx, nh, chains) && x.hash == HashOf(x.word) && b == Bucket(x.hash, |heads|)
    ensures 0 <= b < |heads| == |chains| && heads[b] == Head(chains[b])
    ensures Addable(es, nx, nh, chains[b], x.word, x.hash, Last(es, x.word))
    ensures chains[b] == [] ==> Last(es, x.word) == -1
  {
    AddableChain(heads, es, nx, nh, chains, x.word);
  }

  /** Appending x as the only entry of its empty bucket b keeps the table consistent. */
  lemma AppendFirst(heads: seq<int>, es: seq<HEntry>, nx: seq<int>, nh: seq<int>, chains: seq<seq<int>>, x: HEntry, b: int)
    requires Consistent(heads, es, nx, nh, chains) && x.hash == HashOf(x.word) && b == Bucket(x.hash, |heads|)
    requires 0 <= b < |chains| && chains[b] == []
    ensures Consistent(heads[b := |es|], es + [x], nx + [-1], nh + [-1], chains[b := [|es|]])
  {
    AppendConsistent(heads, es, nx, nh, chains, x);
    assert chains[b] + [|es|] == [|es|];
    AddableChain(heads, es, nx, nh, chains, x.word);
  }

  /**
   * Appending x after the tail t of its non-empty bucket b, and after the
   * last homonym L of its word, keeps the table consistent.
   */
  lemma AppendAfter(heads: seq<int>, es: seq<HEntry>, nx: seq<int>, nh: seq<int>, chains: seq<seq<int>>, x: HEntry, b: int,
                    t: int, L: int)
    requires Consistent(heads, es, nx, nh, chains) && x.hash == HashOf(x.word) && b == Bucket(x.hash, |heads|)
    requires 0 <= b < |chains| && chains[b] != [] && t == chains[b][|chains[b]| - 1] && L == Last(es, x.word)
    ensures 0 <= t < |nx|
    ensures Consistent(heads, es + [x], nx[t := |es|] + [-1], Relink(nh, L, |es|) + [-1], chains[b := chains[b] + [|es|]])
  {
    AppendConsistent(heads, es, nx, nh, chains, x);
    assert LinkAt(nx, chains, b, |chains[b]| - 1);
  }

  // ---------------------------------------------------------------------
  // Remove and remove_forbidden_flag: per-entry updates of one word's homonyms

  /** The flags of a flag set that may be absent (`null` reads as no flags). */
  function FlagList(a: Option<seq<Flag>>): seq<Flag>
  {
    if a.None? then [] else a.value
  }

  /** An entry as Remove leaves it: fw appended to its flags and the flags sorted, unless fw tests present. */
  function Forbidden(x: HEntry, fw: Flag): HEntry
  {
    if Probe(x.astr, fw) then x else x.(astr := Some(SortFlags(FlagList(x.astr) + [fw])))
  }

  /** An entry as remove_forbidden_flag leaves it: no flags at all when fw tests present. */
  function Unforbidden(x: HEntry, fw: Flag): HEntry
  {
    if Probe(x.astr, fw) then x.(astr := None) else x
  }

  /** `es` with every entry holding w marked forbidden. */
  function Marked(es: seq<HEntry>, w: string, fw: Flag): (r: seq<HEntry>)
    ensures |r| == |es|
  {
    seq(|es|, i requires 0 <= i < |es| => if es[i].word == w then Forbidden(es[i], fw) else es[i])
  }

  /** `es` with the forbidden flag dropped from every entry holding w. */
  function Unmarked(es: seq<HEntry>, w: string, fw: Flag): (r: seq<HEntry>)
    ensures |r| == |es|
  {
    seq(|es|, i requires 0 <= i < |es| => if es[i].word == w then Unforbidden(es[i], fw) else es[i])
  }

  /**
   * After Remove(w) every entry holding w tests positive for the forbidden
   * flag, with its other flags kept; the entries of other words, and every
   * word and hash, are untouched.
   */
  lemma MarkedForbids(es: seq<HEntry>, w: string, fw: Flag, i: int)
    requires 0 <= i < |es|
    ensures var r := Marked(es, w, fw);
      SameKeys(es, r) && (es[i].word != w ==> r[i] == es[i]) &&
      (es[i].word == w ==>
        Probe(r[i].astr, fw) &&
        (r[i] == es[i] ||
         (r[i].astr.Some? && Sorted(r[i].astr.value) &&
          multiset(r[i].astr.value) == multiset(FlagList(es[i].astr)) + multiset{fw})))
  {
    var r := Marked(es, w, fw);
    if es[i].word == w && !Probe(es[i].astr, fw) {
      var t := FlagList(es[i].astr) + [fw];
      SortFlagsCorrect(t);
      ProbeExact(r[i].astr, fw);
      assert fw in multiset(SortFlags(t));
    }
  }

  /** After remove_forbidden_flag(w) no entry holding w tests positive for the forbidden flag. */
  lemma UnmarkedAllows(es: seq<HEntry>, w: string, fw: Flag, i: int)
    requires 0 <= i < |es|
    ensures var r := Unmarked(es, w, fw);
      SameKeys(es, r) && (es[i].word != w ==> r[i] == es[i]) &&
      (es[i].word == w ==> !Probe(r[i].astr, fw) && (r[i] == es[i] || r[i].astr.None?))
  {
  }

  /** Marking twice is marking once. */
  lemma MarkedIdempotent(es: seq<HEntry>, w: string, fw: Flag)
    ensures Marked(Marked(es, w, fw), w, fw) == Marked(es, w, fw)
  {
    var r := Marked(es, w, fw);
    forall i | 0 <= i < |es| ensures Marked(r, w, fw)[i] == r[i] {
      MarkedForbids(es, w, fw, i);
    }
  }

  /** Dropping the forbidden flag after marking leaves every homonym of w without flags. */
  lemma UnmarkMarked(es: seq<HEntry>, w: string, fw: Flag, i: int)
    requires 0 <= i < |es| && es[i].word == w
    ensures Unmarked(Marked(es, w, fw), w, fw)[i] == es[i].(astr := None)
  {
    MarkedForbids(es, w, fw, i);
  }

  /** The position a homonym walk has reached: the entry dp, or the end of the arena once dp is -1. */
  function Reach(dp: int, n: int): int
  {
    if dp == -1 then n else dp
  }

  /** es is es0 with the positions before lim replaced by those of target. */
  ghost predicate UpdatedBelow(es0: seq<HEntry>, es: seq<HEntry>, target: seq<HEntry>, lim: int)
  {
    |es| == |es0| == |target| && forall i :: 0 <= i < |es0| ==> es[i] == (if i < lim then target[i] else es0[i])
  }

  /**
   * One step of a walk along the homonyms of w: from the homonym dp, the
   * link leads to the next one (or -1), and no entry in between holds w.
   */
  lemma HomonymStep(es: seq<HEntry>, nh: seq<int>, w: string, dp: int)
    requires Homonyms(es, nh) && 0 <= dp < |es| && es[dp].word == w
    ensures var n := nh[dp];
      (n == -1 || (dp < n < |es| && es[n].word == w)) &&
      forall i :: dp < i < Reach(n, |es|) ==> es[i].word != w
  {
    assert HomonymAt(es, nh, dp);
    ScanSpec(es, w, dp + 1);
  }

  /** A walk along the homonyms of w that rewrites each one as target says, keeping other entries, ends with target. */
  lemma UpdatedStep(es0: seq<HEntry>, es: seq<HEntry>, target: seq<HEntry>, w: string, dp: int, n: int)
    requires UpdatedBelow(es0, es, target, dp) && 0 <= dp < |es0|
    requires forall i :: 0 <= i < |es0| && es0[i].word != w ==> target[i] == es0[i]
    requires n == -1 || dp < n <= |es0|
    requires forall i :: dp < i < Reach(n, |es0|) ==> es0[i].word != w
    ensures UpdatedBelow(es0, es[dp := target[dp]], target, Reach(n, |es0|))
  {
  }

  /**
   * The flags of a hidden capitalised form: ONLYUPCASE inserted where
   * Array.BinarySearch says it belongs, unless the search finds it.
   */
  function WithOnlyUpcase(flags: Option<seq<Flag>>): seq<Flag>
  {
    SearchedInsert(FlagList(flags), ONLYUPCASEFLAG)
  }

  /** The flag array of the hidden form: ONLYUPCASEFLAG spliced in where the binary search puts it. */
  method HiddenFlags(flags: Option<seq<Flag>>) returns (fl: seq<Flag>)
    ensures fl == WithOnlyUpcase(flags)
  {
    fl := FlagList(flags);
    var i := if |fl| > 0 then BinarySearch(fl, ONLYUPCASEFLAG) else -1;
    if i < 0 {
      i := -i - 1;
      fl := fl[..i] + [ONLYUPCASEFLAG] + fl[i..];
    }
  }

  /** v inserted at the place Array.BinarySearch reports, unless the search finds it (no search on an empty list). */
  function SearchedInsert(fl: seq<Flag>, v: Flag): seq<Flag>
  {
    var i := if |fl| > 0 then BinarySearch(fl, v) else -1;
    if i < 0 then fl[..-i - 1] + [v] + fl[-i - 1..] else fl
  }

  /** On sorted flags the hidden form's flags are the flags with ONLYUPCASE inserted in order, unless present. */
  lemma WithOnlyUpcaseInsert(flags: Option<seq<Flag>>)
    requires Sorted(FlagList(flags))
    ensures var fl := FlagList(flags);
      WithOnlyUpcase(flags) == if ONLYUPCASEFLAG in fl then fl else Insert(fl, ONLYUPCASEFLAG)
  {
    SearchInsert(FlagList(flags), ONLYUPCASEFLAG);
  }

  /** On a sorted list the searched insertion is Insert, or nothing when v is there. */
  lemma SearchInsert(fl: seq<Flag>, v: Flag)
    requires Sorted(fl)
    ensures SearchedInsert(fl, v) == if v in fl then fl else Insert(fl, v)
  {
    if fl == [] {
      assert [] + [v] + [] == [v] == Insert(fl, v);
    } else {
      BinarySearchSorted(fl, v);
    }
  }

  /** On sorted flags the hidden form's flags hold ONLYUPCASE and stay sorted. */
  lemma WithOnlyUpcaseSorted(flags: Option<seq<Flag>>)
    requires Sorted(FlagList(flags))
    ensures Sorted(WithOnlyUpcase(flags)) && ONLYUPCASEFLAG in WithOnlyUpcase(flags)
  {
    var fl := FlagList(flags);
    WithOnlyUpcaseInsert(flags);
    if ONLYUPCASEFLAG !in fl {
      InsertKeepsSorted(fl, ONLYUPCASEFLAG);
      InsertMultiset(fl, ONLYUPCASEFLAG);
      assert ONLYUPCASEFLAG in multiset(Insert(fl, ONLYUPCASEFLAG));
    }
  }
}
