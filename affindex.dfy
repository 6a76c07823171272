/**
 * The affix index of AffixMgr.cs: entries reached by the low byte of
 * their flag (pFlag/sFlag), entries with an empty affix on one list
 * (pStart0/sStart0), and the others in one chain per first key character
 * (pStart/sStart), first a binary tree (build_pfxtree, build_sfxtree),
 * then a sorted list (process_*_tree_to_list) whose nextEQ/nextNE links
 * are finally reset for subset-pruned search (process_*_order).
 *
 * One table holds either the prefixes or the suffixes; entries are
 * numbered in the order they were added and links are entry numbers, -1
 * standing for null.
 */
module AffixIndex {
  import opened Base
  import opened Flags
  import opened Ordinal
  import opened AffixEntry
  import opened AffixTree
  import opened SubsetWalk
  import opened AffixLinks

  /** The string an entry is indexed by: the affix itself for a prefix, reversed for a suffix. */
  function KeyOf(isSuffix: bool, e: AffEntry): (k: seq<char>)
    ensures |k| == |e.appnd|
    ensures isSuffix ==> Reverse(k) == e.appnd
    ensures !isSuffix ==> k == e.appnd
  {
    if isSuffix then SfxKey(e) else e.appnd
  }

  predicate EmptyKey(k: seq<char>)
  {
    k == []
  }

  /** The entries whose flag has low byte b. */
  function FlagSel(b: int): AffEntry -> bool
  {
    (e: AffEntry) => e.aflag % 256 == b
  }

  /** pStart0 / sStart0: the entries with an empty key, newest first. */
  function ZeroList(keys: seq<seq<char>>): (Z: seq<int>)
    ensures forall x :: x in Z <==> Picked(keys, EmptyKey, x)
  {
    NewestFirst(keys, EmptyKey)
  }

  /** pFlag[b] / sFlag[b]: the entries whose flag has low byte b, newest first. */
  function FlagList(entries: seq<AffEntry>, b: int): (F: seq<int>)
    ensures forall x :: x in F <==> Picked(entries, FlagSel(b), x)
  {
    NewestFirst(entries, FlagSel(b))
  }

  /** Every first character with a chain has a start entry, and no other. */
  ghost predicate ChainsCover(keys: seq<seq<char>>, start: map<char, int>)
  {
    forall c :: CoverAt(keys, start, c)
  }

  ghost predicate CoverAt(keys: seq<seq<char>>, start: map<char, int>, c: char)
  {
    c in start <==> Bucket(keys, c) != []
  }

  /** The root of each chain's binary tree and the chain it lists in order. */
  ghost predicate RootOk(keys: seq<seq<char>>, eq: seq<int>, ne: seq<int>, c: char, r: int)
    requires Forward(eq, ne)
  {
    0 <= r < |eq| && InOrder(eq, ne, r) == Bucket(keys, c)
  }

  ghost predicate RootsOk(keys: seq<seq<char>>, eq: seq<int>, ne: seq<int>, start: map<char, int>)
    requires Forward(eq, ne)
  {
    forall c :: RootAt(keys, eq, ne, start, c)
  }

  ghost predicate RootAt(keys: seq<seq<char>>, eq: seq<int>, ne: seq<int>, start: map<char, int>, c: char)
    requires Forward(eq, ne)
  {
    c in start ==> RootOk(keys, eq, ne, c, start[c])
  }

  /** The binary trees: every first character with a chain has a root whose in-order list is that chain. */
  ghost predicate TreesOk(keys: seq<seq<char>>, eq: seq<int>, ne: seq<int>, start: map<char, int>)
  {
    Forward(eq, ne) && |eq| == |keys| && ChainsCover(keys, start) && RootsOk(keys, eq, ne, start)
  }

  /** The sorted lists: following `next` from each head visits its chain. */
  ghost predicate ListsOk(keys: seq<seq<char>>, nx: seq<int>, start: map<char, int>)
  {
    ChainsCover(keys, start) && forall c :: ListAt(keys, nx, start, c)
  }

  ghost predicate ListAt(keys: seq<seq<char>>, nx: seq<int>, start: map<char, int>, c: char)
  {
    c in start ==> IsChain(nx, start[c], Bucket(keys, c))
  }

  /** The subset links of one chain (the design comment of process_pfx_order). */
  ghost predicate Linked(keys: seq<seq<char>>, eq: seq<int>, ne: seq<int>, B: seq<int>)
    requires InRange(B, |keys|) && |eq| == |ne| == |keys|
  {
    forall j :: LinkedAt(B, KeysAt(keys, B), eq, ne, j)
  }

  /** Every chain carries its subset links. */
  ghost predicate LinksOk(keys: seq<seq<char>>, eq: seq<int>, ne: seq<int>, start: map<char, int>)
    requires |eq| == |ne| == |keys|
  {
    forall c :: LinkedChainAt(keys, eq, ne, start, c)
  }

  ghost predicate LinkedChainAt(keys: seq<seq<char>>, eq: seq<int>, ne: seq<int>, start: map<char, int>, c: char)
    requires |eq| == |ne| == |keys|
  {
    c in start ==> Linked(keys, eq, ne, Bucket(keys, c))
  }

  /** Shapes agree, keys are those of the entries, and the empty-key and flag lists are in place. */
  ghost predicate ListsBase(isSuffix: bool, entries: seq<AffEntry>, keys: seq<seq<char>>, nx: seq<int>,
                            eq: seq<int>, ne: seq<int>, fl: seq<int>, fh: seq<int>, start0: int)
  {
    |keys| == |entries| && |nx| == |entries| && |eq| == |entries| &&
    |ne| == |entries| && |fl| == |entries| && |fh| == 256 &&
    (forall i :: KeyAt(isSuffix, entries, keys, i)) &&
    IsChain(nx, start0, ZeroList(keys)) && FlagChains(entries, fl, fh)
  }

  /** getKey() of entry i. */
  ghost predicate KeyAt(isSuffix: bool, entries: seq<AffEntry>, keys: seq<seq<char>>, i: int)
  {
    0 <= i < |entries| && i < |keys| ==> keys[i] == KeyOf(isSuffix, entries[i])
  }

  /** pFlag / sFlag: following flgnext from the head of each low byte visits its list. */
  ghost predicate FlagChains(entries: seq<AffEntry>, fl: seq<int>, fh: seq<int>)
    requires |fh| == 256
  {
    forall b :: FlagChainAt(entries, fl, fh, b)
  }

  ghost predicate FlagChainAt(entries: seq<AffEntry>, fl: seq<int>, fh: seq<int>, b: int)
    requires |fh| == 256
  {
    0 <= b < 256 ==> IsChain(fl, fh[b], FlagList(entries, b))
  }

  /** A new entry extends the flag lists and, when its key is empty, the empty-key list. */
  lemma BasePush(isSuffix: bool, entries: seq<AffEntry>, keys: seq<seq<char>>, nx: seq<int>,
                 eq: seq<int>, ne: seq<int>, fl: seq<int>, fh: seq<int>, start0: int, e: AffEntry,
                 eq2: seq<int>, ne2: seq<int>)
    requires ListsBase(isSuffix, entries, keys, nx, eq, ne, fl, fh, start0)
    requires |eq2| == |ne2| == |entries| + 1
    ensures var key, f, n := KeyOf(isSuffix, e), e.aflag % 256, |entries|;
      ListsBase(isSuffix, entries + [e], keys + [key], nx + [if key == [] then start0 else -1],
                eq2, ne2, fl + [fh[f]], fh[f := n], if key == [] then n else start0)
  {
    var key := KeyOf(isSuffix, e);
    FlagChainsPush(entries, fl, fh, e);
    ZeroChainPush(keys, nx, start0, key);
    var k2, e2 := keys + [key], entries + [e];
    forall i ensures KeyAt(isSuffix, e2, k2, i) {
      assert KeyAt(isSuffix, entries, keys, i);
    }
  }

  lemma ForwardExtend(eq: seq<int>, ne: seq<int>)
    requires Forward(eq, ne)
    ensures Forward(eq + [-1], ne + [-1])
  {
  }

  /** A new entry with an empty key or another first character leaves a chain and its tree as they were. */
  lemma RootKept(keys: seq<seq<char>>, eq: seq<int>, ne: seq<int>, key: seq<char>, c: char, r: int)
    requires Forward(eq, ne) && |eq| == |keys| && RootOk(keys, eq, ne, c, r)
    requires key == [] || key[0] != c
    ensures Forward(eq + [-1], ne + [-1]) && RootOk(keys + [key], eq + [-1], ne + [-1], c, r)
  {
    var eq2, ne2 := eq + [-1], ne + [-1];
    assert eq == eq2[..|eq|] && ne == ne2[..|ne|];
    BucketAppendOther(keys, key, c);
    InOrderExtend(eq, ne, eq2, ne2, r);
  }

  lemma CoverKept(keys: seq<seq<char>>, start: map<char, int>, key: seq<char>)
    requires ChainsCover(keys, start) && (key == [] || key[0] in start)
    ensures ChainsCover(keys + [key], start)
  {
    forall c ensures CoverAt(keys + [key], start, c) {
      assert CoverAt(keys, start, c);
      if key == [] || key[0] != c {
        BucketAppendOther(keys, key, c);
      } else {
        BucketAppendSame(keys, key);
      }
    }
  }

  /** Pushing an entry with an empty key on the empty-key list. */
  lemma TreesPushEmpty(keys: seq<seq<char>>, eq: seq<int>, ne: seq<int>, start: map<char, int>, key: seq<char>)
    requires TreesOk(keys, eq, ne, start) && key == []
    ensures TreesOk(keys + [key], eq + [-1], ne + [-1], start)
  {
    ForwardExtend(eq, ne);
    CoverKept(keys, start, key);
    forall c ensures RootAt(keys + [key], eq + [-1], ne + [-1], start, c) {
      if c in start {
        assert RootAt(keys, eq, ne, start, c);
        RootKept(keys, eq, ne, key, c, start[c]);
      }
    }
  }

  lemma CoverRoot(keys: seq<seq<char>>, start: map<char, int>, key: seq<char>)
    requires ChainsCover(keys, start) && key != [] && key[0] !in start
    ensures ChainsCover(keys + [key], start[key[0] := |keys|])
  {
    var start2 := start[key[0] := |keys|];
    forall c ensures CoverAt(keys + [key], start2, c) {
      assert CoverAt(keys, start, c);
      if key[0] != c {
        BucketAppendOther(keys, key, c);
      } else {
        BucketAppendSame(keys, key);
      }
    }
  }

  /** The new root: its tree and its chain hold only itself. */
  lemma RootNew(keys: seq<seq<char>>, eq: seq<int>, ne: seq<int>, start: map<char, int>, key: seq<char>)
    requires Forward(eq, ne) && |eq| == |keys| && ChainsCover(keys, start) && key != [] && key[0] !in start
    ensures Forward(eq + [-1], ne + [-1]) && RootOk(keys + [key], eq + [-1], ne + [-1], key[0], |keys|)
  {
    var eq2, ne2 := eq + [-1], ne + [-1];
    BucketAppendSame(keys, key);
    assert CoverAt(keys, start, key[0]);
    assert Bucket(keys, key[0]) == [];
    assert InOrder(eq2, ne2, |keys|) == InOrder(eq2, ne2, -1) + [|keys|] + InOrder(eq2, ne2, -1);
  }

  /** The first key with its first character becomes the root of a new tree. */
  lemma TreesPushRoot(keys: seq<seq<char>>, eq: seq<int>, ne: seq<int>, start: map<char, int>, key: seq<char>)
    requires TreesOk(keys, eq, ne, start) && key != [] && key[0] !in start
    ensures TreesOk(keys + [key], eq + [-1], ne + [-1], start[key[0] := |keys|])
  {
    ForwardExtend(eq, ne);
    CoverRoot(keys, start, key);
    RootNew(keys, eq, ne, start, key);
    var start2 := start[key[0] := |keys|];
    forall c ensures RootAt(keys + [key], eq + [-1], ne + [-1], start2, c) {
      if c in start2 && c != key[0] {
        assert RootAt(keys, eq, ne, start, c);
        RootKept(keys, eq, ne, key, c, start[c]);
      }
    }
  }

  /** eq2/ne2: the links after the new leaf n was hung under x, on the nextEQ side when `before`. */
  predicate Attached(eq: seq<int>, ne: seq<int>, eq2: seq<int>, ne2: seq<int>, x: int, n: int, before: bool)
  {
    |eq| == |ne| == n && 0 <= x < n &&
    (before ==> eq[x] == -1 && eq2 == (eq + [-1])[x := n] && ne2 == ne + [-1]) &&
    (!before ==> ne[x] == -1 && ne2 == (ne + [-1])[x := n] && eq2 == eq + [-1])
  }

  /** Every tree after the attachment: its old in-order list with n spliced next to x. */
  lemma AttachSplices(eq: seq<int>, ne: seq<int>, eq2: seq<int>, ne2: seq<int>, x: int, n: int, before: bool, r: int)
    requires Forward(eq, ne) && Attached(eq, ne, eq2, ne2, x, n, before) && -1 <= r < n
    ensures Forward(eq2, ne2)
    ensures InOrder(eq2, ne2, r) == Splice(InOrder(eq, ne, r), x, n, before)
  {
    var eq1, ne1 := eq + [-1], ne + [-1];
    assert eq == eq1[..|eq|] && ne == ne1[..|ne|];
    assert Forward(eq1, ne1);
    assert Forward(eq2, ne2);
    InOrderExtend(eq, ne, eq1, ne1, r);
    InOrderAttach(eq1, ne1, eq2, ne2, x, n, before, r);
  }

  /** The chain of the new key's first character gains n at its insertion position. */
  lemma AttachSameChain(keys: seq<seq<char>>, key: seq<char>, x: int, i: nat, before: bool)
    requires key != [] && i < |Bucket(keys, key[0])| && Bucket(keys, key[0])[i] == x
    requires var G, p := Bucket(keys, key[0]), if before then i else i + 1;
      (forall j :: 0 <= j < p ==> !LexLe(key, keys[G[j]])) && (p < |G| ==> LexLe(key, keys[G[p]]))
    ensures Splice(Bucket(keys, key[0]), x, |keys|, before) == Bucket(keys + [key], key[0])
  {
    var n := |keys|;
    var k2 := keys + [key];
    var G := Bucket(keys, key[0]);
    BucketSorted(keys, key[0]);
    var p := if before then i else i + 1;
    assert forall j :: 0 <= j < |G| ==> k2[G[j]] == keys[G[j]];
    InsertPosIs(k2, G, key, p);
    BucketAppendSame(keys, key);
    SpliceAt(G, i, n, before);
    SpliceIsInsert(G, i, n, before);
  }

  /** Splicing next to position i inserts at i (before) or at i + 1 (after). */
  lemma SpliceIsInsert(G: seq<int>, i: nat, n: int, before: bool)
    requires i < |G|
    ensures var p := if before then i else i + 1;
      G[..i] + (if before then [n, G[i]] else [G[i], n]) + G[i + 1..] == G[..p] + [n] + G[p..]
  {
    if before {
      assert G[i..] == [G[i]] + G[i + 1..];
    } else {
      assert G[..i + 1] == G[..i] + [G[i]];
    }
  }

  /** The other chains do not hold x and stay as they were. */
  lemma AttachOtherChain(keys: seq<seq<char>>, key: seq<char>, x: int, c: char)
    requires key != [] && StartsWith(keys, x, key[0]) && c != key[0]
    ensures Splice(Bucket(keys, c), x, |keys|, true) == Bucket(keys + [key], c)
    ensures Splice(Bucket(keys, c), x, |keys|, false) == Bucket(keys + [key], c)
  {
    BucketAppendOther(keys, key, c);
    SpliceAbsent(Bucket(keys, c), x, |keys|, true);
    SpliceAbsent(Bucket(keys, c), x, |keys|, false);
  }

  /**
   * Hanging the new entry under x, which sits at position i of its chain,
   * puts it at its insertion position: before x on the nextEQ side, after
   * it on the nextNE side.
   */
  lemma TreesAttach(keys: seq<seq<char>>, eq: seq<int>, ne: seq<int>, eq2: seq<int>, ne2: seq<int>,
                    start: map<char, int>, key: seq<char>, x: int, i: nat, before: bool)
    requires TreesOk(keys, eq, ne, start) && key != [] && key[0] in start
    requires Attached(eq, ne, eq2, ne2, x, |keys|, before)
    requires i < |Bucket(keys, key[0])| && Bucket(keys, key[0])[i] == x
    requires var G, p := Bucket(keys, key[0]), if before then i else i + 1;
      (forall j :: 0 <= j < p ==> !LexLe(key, keys[G[j]])) && (p < |G| ==> LexLe(key, keys[G[p]]))
    ensures TreesOk(keys + [key], eq2, ne2, start)
  {
    var n := |keys|;
    var k2 := keys + [key];
    AttachSplices(eq, ne, eq2, ne2, x, n, before, -1);
    assert x in Bucket(keys, key[0]);
    forall c ensures CoverAt(k2, start, c) {
      assert CoverAt(keys, start, c);
      if c != key[0] {
        BucketAppendOther(keys, key, c);
      } else {
        BucketAppendSame(keys, key);
      }
    }
    forall c ensures RootAt(k2, eq2, ne2, start, c) {
      if c in start {
        assert RootAt(keys, eq, ne, start, c);
        AttachSplices(eq, ne, eq2, ne2, x, n, before, start[c]);
        if c == key[0] {
          AttachSameChain(keys, key, x, i, before);
        } else {
          AttachOtherChain(keys, key, x, c);
        }
      }
    }
  }

  /** A new entry on one flag list. */
  lemma FlagChainsPush(entries: seq<AffEntry>, fl: seq<int>, fh: seq<int>, e: AffEntry)
    requires |fl| == |entries| && |fh| == 256 && FlagChains(entries, fl, fh)
    ensures FlagChains(entries + [e], fl + [fh[e.aflag % 256]], fh[e.aflag % 256 := |entries|])
  {
    var f := e.aflag % 256;
    var fl2, fh2 := fl + [fh[f]], fh[f := |entries|];
    forall b ensures FlagChainAt(entries + [e], fl2, fh2, b) {
      if 0 <= b < 256 {
        assert FlagChainAt(entries, fl, fh, b);
        NewestFirstAppend(entries, e, FlagSel(b));
        ChainElements(fl, fh[b], FlagList(entries, b));
        ChainFrame(fl, fl2, fh[b], FlagList(entries, b));
        if b == f {
          assert FlagList(entries + [e], b) == [|entries|] + FlagList(entries, b);
          assert ([|entries|] + FlagList(entries, b))[1..] == FlagList(entries, b);
        } else {
          assert FlagList(entries + [e], b) == FlagList(entries, b);
        }
      }
    }
  }

  /** The empty-key list after a new entry: pushed on when its key is empty, unchanged otherwise. */
  lemma ZeroChainPush(keys: seq<seq<char>>, nx: seq<int>, h: int, key: seq<char>)
    requires |nx| == |keys| && IsChain(nx, h, ZeroList(keys))
    ensures key == [] ==> IsChain(nx + [h], |keys|, ZeroList(keys + [key]))
    ensures key != [] ==> IsChain(nx + [-1], h, ZeroList(keys + [key]))
  {
    NewestFirstAppend(keys, key, EmptyKey);
    ChainElements(nx, h, ZeroList(keys));
    if key == [] {
      ChainFrame(nx, nx + [h], h, ZeroList(keys));
      assert ([|keys|] + ZeroList(keys))[1..] == ZeroList(keys);
    } else {
      assert !EmptyKey(key);
      assert ZeroList(keys + [key]) == [] + ZeroList(keys) == ZeroList(keys);
      ChainFrame(nx, nx + [-1], h, ZeroList(keys));
    }
  }

  /** After the first walk step of the insertion: the in-order list of the nextEQ child is a slice of the chain. */
  lemma WalkLeft(keys: seq<seq<char>>, G: seq<int>, lo: nat, hi: nat, L: seq<int>, v: int, R: seq<int>, key: seq<char>)
    requires InRange(G, |keys|) && OrderedBy(keys, G) && lo <= hi <= |G|
    requires 0 <= v < |keys| && G[lo..hi] == L + [v] + R && LexLe(key, keys[v])
    requires forall j :: hi <= j < |G| ==> LexLe(key, keys[G[j]])
    ensures lo + |L| < hi && G[lo..lo + |L|] == L && G[lo + |L|] == v
    ensures L == [] ==> G[lo] == v
    ensures forall j :: lo + |L| <= j < |G| ==> LexLe(key, keys[G[j]])
  {
    var m := lo + |L|;
    assert G[lo..hi][|L|] == v;
    assert G[lo..hi][..|L|] == L;
    assert G[lo..m] == G[lo..hi][..|L|];
    forall j | m < j < hi ensures LexLe(key, keys[G[j]]) {
      LexLeTrans(key, keys[v], keys[G[j]]);
    }
  }

  lemma WalkRight(keys: seq<seq<char>>, G: seq<int>, lo: nat, hi: nat, L: seq<int>, v: int, R: seq<int>, key: seq<char>)
    requires InRange(G, |keys|) && OrderedBy(keys, G) && lo <= hi <= |G|
    requires 0 <= v < |keys| && G[lo..hi] == L + [v] + R && !LexLe(key, keys[v])
    requires forall j :: 0 <= j < lo ==> !LexLe(key, keys[G[j]])
    ensures lo < hi - |R| && G[hi - |R|..hi] == R && G[hi - |R| - 1] == v
    ensures R == [] ==> G[hi - 1] == v
    ensures forall j :: 0 <= j < hi - |R| ==> !LexLe(key, keys[G[j]])
  {
    var m := hi - |R|;
    assert G[lo..hi][|L|] == v;
    assert G[lo..hi][|L| + 1..] == R;
    assert G[m..hi] == G[lo..hi][|L| + 1..];
    forall j | lo <= j < m - 1 ensures !LexLe(key, keys[G[j]]) {
      if LexLe(key, keys[G[j]]) {
        LexLeTrans(key, keys[G[j]], keys[v]);
      }
    }
  }

  /**
   * The state of the insertion walk: the subtree at ptr lists the slice
   * lo..hi of the chain G, every key before the slice is ordinally below
   * the new key and every key after it is not.
   */
  ghost predicate WalkInv(keys: seq<seq<char>>, eq: seq<int>, ne: seq<int>, G: seq<int>, key: seq<char>,
                          ptr: int, lo: nat, hi: nat)
    requires Forward(eq, ne) && InRange(G, |keys|)
  {
    0 <= ptr < |eq| && lo <= hi <= |G| && InOrder(eq, ne, ptr) == G[lo..hi] &&
    (forall j :: 0 <= j < lo ==> !LexLe(key, keys[G[j]])) &&
    (forall j :: hi <= j < |G| ==> LexLe(key, keys[G[j]]))
  }

  /** A step down the nextEQ side: the walk stops before position lo or goes on in the left part. */
  lemma StepLeft(keys: seq<seq<char>>, eq: seq<int>, ne: seq<int>, G: seq<int>, key: seq<char>,
                 ptr: int, lo: nat, hi: nat)
    requires Forward(eq, ne) && |eq| == |keys| && InRange(G, |keys|) && OrderedBy(keys, G)
    requires WalkInv(keys, eq, ne, G, key, ptr, lo, hi) && LexLe(key, keys[ptr])
    ensures eq[ptr] == -1 ==> lo < |G| && G[lo] == ptr && LexLe(key, keys[G[lo]]) &&
                              (forall j :: 0 <= j < lo ==> !LexLe(key, keys[G[j]]))
    ensures eq[ptr] != -1 ==> WalkInv(keys, eq, ne, G, key, eq[ptr], lo, lo + |InOrder(eq, ne, eq[ptr])|)
  {
    var L, R := InOrder(eq, ne, eq[ptr]), InOrder(eq, ne, ne[ptr]);
    WalkLeft(keys, G, lo, hi, L, ptr, R, key);
  }

  /** A step down the nextNE side: the walk stops after position hi - 1 or goes on in the right part. */
  lemma StepRight(keys: seq<seq<char>>, eq: seq<int>, ne: seq<int>, G: seq<int>, key: seq<char>,
                  ptr: int, lo: nat, hi: nat)
    requires Forward(eq, ne) && |eq| == |keys| && InRange(G, |keys|) && OrderedBy(keys, G)
    requires WalkInv(keys, eq, ne, G, key, ptr, lo, hi) && !LexLe(key, keys[ptr])
    ensures ne[ptr] == -1 ==> 0 < hi && G[hi - 1] == ptr && (hi < |G| ==> LexLe(key, keys[G[hi]])) &&
                              (forall j :: 0 <= j < hi ==> !LexLe(key, keys[G[j]]))
    ensures ne[ptr] != -1 ==> hi >= |InOrder(eq, ne, ne[ptr])| &&
                              WalkInv(keys, eq, ne, G, key, ne[ptr], hi - |InOrder(eq, ne, ne[ptr])|, hi)
  {
    var L, R := InOrder(eq, ne, eq[ptr]), InOrder(eq, ne, ne[ptr]);
    WalkRight(keys, G, lo, hi, L, ptr, R, key);
  }

  /**
   * The walk of the binary tree insertion: down the nextEQ side while the
   * new key is ordinally <= the node's, down the nextNE side otherwise,
   * until the link to follow is null.
   */
  method FindParent(keys: seq<seq<char>>, eq: seq<int>, ne: seq<int>, root: int, key: seq<char>, ghost G: seq<int>)
      returns (ptr: int, before: bool, ghost i: nat)
    requires Forward(eq, ne) && |eq| == |keys| && InRange(G, |keys|) && OrderedBy(keys, G)
    requires 0 <= root < |eq| && InOrder(eq, ne, root) == G
    ensures i < |G| && G[i] == ptr && 0 <= ptr < |keys|
    ensures before ==> eq[ptr] == -1
    ensures !before ==> ne[ptr] == -1
    ensures var p := if before then i else i + 1;
      (forall j :: 0 <= j < p ==> !LexLe(key, keys[G[j]])) && (p < |G| ==> LexLe(key, keys[G[p]]))
  {
    ptr := root;
    ghost var lo: nat, hi: nat := 0, |G|;
    assert G[lo..hi] == G;
    while true
      invariant WalkInv(keys, eq, ne, G, key, ptr, lo, hi)
      decreases |keys| - ptr
    {
      if LexLe(key, keys[ptr]) {
        StepLeft(keys, eq, ne, G, key, ptr, lo, hi);
        if eq[ptr] == -1 {
          before, i := true, lo;
          return;
        }
        hi := lo + |InOrder(eq, ne, eq[ptr])|;
        ptr := eq[ptr];
      } else {
        StepRight(keys, eq, ne, G, key, ptr, lo, hi);
        if ne[ptr] == -1 {
          before, i := false, hi - 1;
          return;
        }
        lo := hi - |InOrder(eq, ne, ne[ptr])|;
        ptr := ne[ptr];
      }
    }
  }

  /**
   * How one insertion changes the trees: a new leaf with null links, a new
   * root for a new first character, and otherwise only null links of
   * existing entries set to the new one.
   */
  ghost predicate Inserted(n: nat, eq: seq<int>, ne: seq<int>, start: map<char, int>, key: seq<char>,
                           eq2: seq<int>, ne2: seq<int>, start2: map<char, int>)
    requires |eq| == |ne| == n
  {
    |eq2| == |ne2| == n + 1 && eq2[n] == -1 && ne2[n] == -1 &&
    (key == [] ==> eq2 == eq + [-1] && ne2 == ne + [-1] && start2 == start) &&
    (key != [] ==> start2 == if key[0] in start then start else start[key[0] := n]) &&
    forall i :: 0 <= i < n ==>
      (eq2[i] == eq[i] || (eq[i] == -1 && eq2[i] == n)) && (ne2[i] == ne[i] || (ne[i] == -1 && ne2[i] == n))
  }

  /**
   * The key part of build_pfxtree / build_sfxtree: an empty key leaves
   * the trees alone, the first key with its first character becomes a
   * root, and any other is hung as a leaf where the binary tree walk ends.
   */
  method TreeInsert(keys: seq<seq<char>>, eq: seq<int>, ne: seq<int>, start: map<char, int>, key: seq<char>)
      returns (eq2: seq<int>, ne2: seq<int>, start2: map<char, int>)
    requires TreesOk(keys, eq, ne, start)
    ensures TreesOk(keys + [key], eq2, ne2, start2)
    ensures |eq| == |ne| == |keys| && Inserted(|keys|, eq, ne, start, key, eq2, ne2, start2)
  {
    var n := |keys|;
    eq2, ne2, start2 := eq + [-1], ne + [-1], start;
    if |key| == 0 {
      // the empty key goes on the empty-key list only
      TreesPushEmpty(keys, eq, ne, start, key);
    } else if key[0] !in start {
      // the first key with this character is the root of its tree
      TreesPushRoot(keys, eq, ne, start, key);
      start2 := start[key[0] := n];
    } else {
      // binary tree insertion
      assert RootAt(keys, eq, ne, start, key[0]);
      BucketSorted(keys, key[0]);
      var ptr, before, i := FindParent(keys, eq, ne, start[key[0]], key, Bucket(keys, key[0]));
      if before {
        eq2 := eq2[ptr := n];
      } else {
        ne2 := ne2[ptr := n];
      }
      assert Attached(eq, ne, eq2, ne2, ptr, n, before);
      TreesAttach(keys, eq, ne, eq2, ne2, start, key, ptr, i, before);
    }
  }

  /** The links after indexing entry e with key `key`: by flag first, then by key. */
  ghost predicate Indexed(entries: seq<AffEntry>, nx: seq<int>, eq: seq<int>, ne: seq<int>, fl: seq<int>, fh: seq<int>,
                          start: map<char, int>, start0: int, key: seq<char>, e: AffEntry,
                          nx2: seq<int>, eq2: seq<int>, ne2: seq<int>, fl2: seq<int>, fh2: seq<int>,
                          start2: map<char, int>, s0: int)
  {
    var n, f := |entries|, e.aflag % 256;
    |fh| == 256 && fl2 == fl + [fh[f]] && fh2 == fh[f := n] &&
    (key == [] ==> nx2 == nx + [start0] && s0 == n) &&
    (key != [] ==> nx2 == nx + [-1] && s0 == start0) &&
    |eq| == |ne| == n &&
    Inserted(n, eq, ne, start, key, eq2, ne2, start2)
  }

  /** build_pfxtree / build_sfxtree on the values of the table. */
  method IndexEntry(isSuffix: bool, entries: seq<AffEntry>, keys: seq<seq<char>>, nx: seq<int>, eq: seq<int>,
                    ne: seq<int>, fl: seq<int>, fh: seq<int>, start: map<char, int>, start0: int, e: AffEntry)
      returns (nx2: seq<int>, eq2: seq<int>, ne2: seq<int>, fl2: seq<int>, fh2: seq<int>, start2: map<char, int>, s0: int)
    requires ListsBase(isSuffix, entries, keys, nx, eq, ne, fl, fh, start0) && TreesOk(keys, eq, ne, start)
    ensures ListsBase(isSuffix, entries + [e], keys + [KeyOf(isSuffix, e)], nx2, eq2, ne2, fl2, fh2, s0)
    ensures TreesOk(keys + [KeyOf(isSuffix, e)], eq2, ne2, start2)
    ensures Indexed(entries, nx, eq, ne, fl, fh, start, start0, KeyOf(isSuffix, e), e, nx2, eq2, ne2, fl2, fh2, start2, s0)
  {
    var n := |entries|;
    var key := KeyOf(isSuffix, e);
    var flg := e.aflag % 256;
    // first index by flag, then by key
    fl2, fh2 := fl + [fh[flg]], fh[flg := n];
    nx2, s0 := nx + [-1], start0;
    if |key| == 0 {
      nx2, s0 := nx + [start0], n;
    }
    eq2, ne2, start2 := TreeInsert(keys, eq, ne, start, key);
    BasePush(isSuffix, entries, keys, nx, eq, ne, fl, fh, start0, e, eq2, ne2);
  }

  /** Rewriting the `next` links outside the empty-key entries keeps the base invariant. */
  lemma BaseNext(isSuffix: bool, entries: seq<AffEntry>, keys: seq<seq<char>>, nx: seq<int>, nx2: seq<int>,
                 eq: seq<int>, ne: seq<int>, fl: seq<int>, fh: seq<int>, start0: int)
    requires ListsBase(isSuffix, entries, keys, nx, eq, ne, fl, fh, start0) && |nx2| == |nx|
    requires forall x :: 0 <= x < |keys| && keys[x] == [] ==> nx2[x] == nx[x]
    ensures ListsBase(isSuffix, entries, keys, nx2, eq, ne, fl, fh, start0)
  {
    var Z := ZeroList(keys);
    forall x | x in Z ensures 0 <= x < |nx| && nx2[x] == nx[x] {
      assert Picked(keys, EmptyKey, x);
    }
    ChainFrame(nx, nx2, start0, Z);
  }

  /** One more chain threaded: it is in place, and the chains already threaded are untouched. */
  lemma ListPut(keys: seq<seq<char>>, nx: seq<int>, nx3: seq<int>, start: map<char, int>,
                todo: set<char>, c: char, h: int, start3: map<char, int>)
    requires c in todo && |nx3| == |nx| && IsChain(nx3, h, Bucket(keys, c)) && start3 == start[c := h]
    requires forall x :: 0 <= x < |nx| && x !in Bucket(keys, c) ==> nx3[x] == nx[x]
    requires forall d :: d !in todo ==> ListAt(keys, nx, start, d)
    ensures forall d :: d !in todo - {c} ==> ListAt(keys, nx3, start3, d)
  {
    forall d | d !in todo - {c} ensures ListAt(keys, nx3, start3, d) {
      if d != c && d in start {
        assert ListAt(keys, nx, start, d);
        var B := Bucket(keys, d);
        ChainElements(nx, start[d], B);
        forall x | x in B ensures 0 <= x < |nx| && nx3[x] == nx[x] {
          assert StartsWith(keys, x, d);
        }
        ChainFrame(nx, nx3, start[d], B);
      }
    }
  }

  /**
   * process_*_tree_to_list on the values of the table: the `next` links
   * of each tree are threaded in order from a new head, and the empty-key
   * list keeps its links.
   */
  method ListAll(keys: seq<seq<char>>, eq: seq<int>, ne: seq<int>, nx: seq<int>, start: map<char, int>)
      returns (nx2: seq<int>, start2: map<char, int>)
    requires TreesOk(keys, eq, ne, start) && |nx| == |keys|
    ensures |nx2| == |nx| && start2.Keys == start.Keys
    ensures ListsOk(keys, nx2, start2)
    ensures forall x :: 0 <= x < |keys| && keys[x] == [] ==> nx2[x] == nx[x]
  {
    nx2, start2 := nx, start;
    var todo := start.Keys;
    while todo != {}
      invariant todo <= start.Keys && start2.Keys == start.Keys && |nx2| == |nx|
      invariant forall c :: c in todo ==> start2[c] == start[c]
      invariant forall c :: c !in todo ==> ListAt(keys, nx2, start2, c)
      invariant forall x :: 0 <= x < |keys| && keys[x] == [] ==> nx2[x] == nx[x]
      decreases |todo|
    {
      var c :| c in todo;
      assert RootAt(keys, eq, ne, start, c);
      BucketSorted(keys, c);
      ghost var T := Bucket(keys, c);
      assert T + [] == T;
      var nx3, h := InOrderLink(eq, ne, nx2, start2[c], -1, T, []);
      forall x | 0 <= x < |keys| && keys[x] == [] ensures x !in T {
        assert !StartsWith(keys, x, c);
      }
      ListPut(keys, nx2, nx3, start2, todo, c, h, start2[c := h]);
      nx2, start2 := nx3, start2[c := h];
      todo := todo - {c};
    }
    forall c ensures CoverAt(keys, start2, c) {
      assert CoverAt(keys, start, c);
    }
  }

  /** Links rewritten only outside chain B leave B's subset links as they were. */
  lemma LinkedFrame(keys: seq<seq<char>>, eq: seq<int>, ne: seq<int>, eq2: seq<int>, ne2: seq<int>, B: seq<int>)
    requires InRange(B, |keys|) && |eq| == |ne| == |keys| && |eq2| == |ne2| == |keys|
    requires Linked(keys, eq, ne, B)
    requires forall x :: x in B ==> eq2[x] == eq[x] && ne2[x] == ne[x]
    ensures Linked(keys, eq2, ne2, B)
  {
    forall j ensures LinkedAt(B, KeysAt(keys, B), eq2, ne2, j) {
      assert LinkedAt(B, KeysAt(keys, B), eq, ne, j);
      if 0 <= j < |B| {
        assert B[j] in B;
      }
    }
  }

  lemma LinkPut(keys: seq<seq<char>>, eq: seq<int>, ne: seq<int>, eq3: seq<int>, ne3: seq<int>,
                start: map<char, int>, todo: set<char>, c: char)
    requires |eq| == |ne| == |keys| && |eq3| == |ne3| == |keys| && c in todo
    requires Linked(keys, eq3, ne3, Bucket(keys, c))
    requires forall x :: 0 <= x < |keys| && x !in Bucket(keys, c) ==> eq3[x] == eq[x] && ne3[x] == ne[x]
    requires forall d :: d !in todo ==> LinkedChainAt(keys, eq, ne, start, d)
    ensures forall d :: d !in todo - {c} ==> LinkedChainAt(keys, eq3, ne3, start, d)
  {
    forall d | d !in todo - {c} ensures LinkedChainAt(keys, eq3, ne3, start, d) {
      if d != c && d in start {
        assert LinkedChainAt(keys, eq, ne, start, d);
        var B := Bucket(keys, d);
        forall x | x in B ensures eq3[x] == eq[x] && ne3[x] == ne[x] {
          assert StartsWith(keys, x, d);
        }
        LinkedFrame(keys, eq, ne, eq3, ne3, B);
      }
    }
  }

  /** process_*_order on the values of the table: every chain gets its subset links. */
  method OrderAll(keys: seq<seq<char>>, nx: seq<int>, eq: seq<int>, ne: seq<int>, start: map<char, int>)
      returns (eq2: seq<int>, ne2: seq<int>)
    requires ListsOk(keys, nx, start) && |nx| == |eq| == |ne| == |keys|
    ensures |eq2| == |ne2| == |keys|
    ensures LinksOk(keys, eq2, ne2, start)
  {
    eq2, ne2 := eq, ne;
    var todo := start.Keys;
    while todo != {}
      invariant todo <= start.Keys && |eq2| == |ne2| == |keys|
      invariant forall c :: c !in todo ==> LinkedChainAt(keys, eq2, ne2, start, c)
      decreases |todo|
    {
      var c :| c in todo;
      assert ListAt(keys, nx, start, c);
      BucketSorted(keys, c);
      var eq3, ne3 := OrderChain(keys, nx, eq2, ne2, start[c], Bucket(keys, c));
      LinkPut(keys, eq2, ne2, eq3, ne3, start, todo, c);
      eq2, ne2 := eq3, ne3;
      todo := todo - {c};
    }
  }

  /** The fields of an index that the search routines read, as one value. */
  datatype Table = Table(entries: seq<AffEntry>, keys: seq<seq<char>>, next: seq<int>,
                         nextEQ: seq<int>, nextNE: seq<int>, start: map<char, int>, start0: int)

  /** An index as process_*_order leaves it: the lists and the subset links in place. */
  ghost predicate TableOk(t: Table)
  {
    |t.keys| == |t.entries| && |t.next| == |t.entries| && |t.nextEQ| == |t.entries| &&
    |t.nextNE| == |t.entries| && IsChain(t.next, t.start0, ZeroList(t.keys)) &&
    ListsOk(t.keys, t.next, t.start) && LinksOk(t.keys, t.nextEQ, t.nextNE, t.start)
  }

  class AffixTable {
    /** Whether the table holds suffixes (keys reversed) or prefixes. */
    const isSuffix: bool
    var entries: seq<AffEntry>
    /** getKey() of each entry. */
    var keys: seq<seq<char>>
    var next: seq<int>
    var nextEQ: seq<int>
    var nextNE: seq<int>
    var flgNxt: seq<int>
    /** pFlag / sFlag, by the low byte of the flag. */
    var flagHead: seq<int>
    /** pStart / sStart, by the first key character. */
    var start: map<char, int>
    /** pStart0 / sStart0. */
    var start0: int

    /** While the affix file is read: each chain is a binary search tree. */
    ghost predicate TreeOk()
      reads this
    {
      ListsBase(isSuffix, entries, keys, next, nextEQ, nextNE, flgNxt, flagHead, start0) &&
      TreesOk(keys, nextEQ, nextNE, start)
    }

    /** After process_*_tree_to_list: each chain is a list sorted by key. */
    ghost predicate ListOk()
      reads this
    {
      ListsBase(isSuffix, entries, keys, next, nextEQ, nextNE, flgNxt, flagHead, start0) &&
      ListsOk(keys, next, start)
    }

    /** After process_*_order: the lists carry the subset links as well. */
    ghost predicate OrderOk()
      reads this
    {
      ListOk() && LinksOk(keys, nextEQ, nextNE, start)
    }

    /** The table as the search routines see it; after process_*_order it is a well-formed Table. */
    function Snapshot(): (t: Table)
      reads this
      ensures OrderOk() ==> TableOk(t)
    {
      Table(entries, keys, next, nextEQ, nextNE, start, start0)
    }

    constructor (isSuffix: bool)
      ensures this.isSuffix == isSuffix && TreeOk()
      ensures entries == [] && start == map[] && start0 == -1
      ensures |flagHead| == 256 && forall b :: 0 <= b < 256 ==> flagHead[b] == -1
    {
      this.isSuffix := isSuffix;
      entries, keys := [], [];
      next, nextEQ, nextNE, flgNxt := [], [], [], [];
      flagHead := seq(256, _ => -1);
      start, start0 := map[], -1;
    }

    /**
     * build_pfxtree / build_sfxtree: index a new entry by its flag, then by
     * its key, on the empty-key list or by binary tree insertion into the
     * tree of its first key character.
     */
    method Add(e: AffEntry)
      requires TreeOk()
      modifies this
      ensures TreeOk()
      ensures entries == old(entries) + [e] && keys == old(keys) + [KeyOf(isSuffix, e)]
      ensures Indexed(old(entries), old(next), old(nextEQ), old(nextNE), old(flgNxt), old(flagHead), old(start), old(start0),
                      KeyOf(isSuffix, e), e, next, nextEQ, nextNE, flgNxt, flagHead, start, start0)
    {
      var nx2, eq2, ne2, fl2, fh2, start2, s0 :=
        IndexEntry(isSuffix, entries, keys, next, nextEQ, nextNE, flgNxt, flagHead, start, start0, e);
      entries, keys, flgNxt, flagHead, next, start0, nextEQ, nextNE, start :=
        entries + [e], keys + [KeyOf(isSuffix, e)], fl2, fh2, nx2, s0, eq2, ne2, start2;
    }

    /**
     * process_*_tree_to_list: each tree is flattened into its chain, the
     * start of each first character moving to the smallest key.
     */
    method TreeToList()
      requires TreeOk()
      modifies this
      ensures ListOk()
      ensures entries == old(entries) && keys == old(keys) && nextEQ == old(nextEQ) && nextNE == old(nextNE)
      ensures flgNxt == old(flgNxt) && flagHead == old(flagHead) && start0 == old(start0)
      ensures start.Keys == old(start.Keys)
    {
      var nx2, start2 := ListAll(keys, nextEQ, nextNE, next, start);
      BaseNext(isSuffix, entries, keys, next, nx2, nextEQ, nextNE, flgNxt, flagHead, start0);
      next, start := nx2, start2;
    }

    /** process_*_order: every chain gets the nextEQ / nextNE links of the subset-pruned search. */
    method ProcessOrder()
      requires ListOk()
      modifies this
      ensures OrderOk()
      ensures entries == old(entries) && keys == old(keys) && next == old(next) && start == old(start)
      ensures flgNxt == old(flgNxt) && flagHead == old(flagHead) && start0 == old(start0)
    {
      var eq2, ne2 := OrderAll(keys, next, nextEQ, nextNE, start);
      nextEQ, nextNE := eq2, ne2;
    }
  }
}
