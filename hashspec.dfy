/**
 * What the dictionary hash table (HashMgr.cs) means: the hash function,
 * the entries as an arena in the order they were added, the linear-search
 * reading of a lookup, and the invariant that ties the bucket chains, the
 * `next` links and the `next_homonym` links to the entries.
 */
module HashSpec {
  import opened Base
  import opened Flags
  import opened HashLists

  /** An entry of the table without its two links: hentry's word, flags, options, data and hash code. */
  datatype HEntry = HEntry(word: string, astr: Option<seq<Flag>>, opts: int, data: Option<string>, hash: nat)

  // ---------------------------------------------------------------------
  // The hash function

  const SEED: nat := 0x15051505
  const MULT: nat := 0x5d588b65
  const TWO32: nat := 0x1_0000_0000

  /**
   * One load-and-rotate step of a 32-bit accumulator:
   * `((h << 5) + h + (h >> 27)) ^ c`, the shifts and additions wrapping
   * modulo 2^32.
   */
  function Mix(h: nat, c: char): nat
  {
    Xor((h * 32 % TWO32 + h + h / 0x800_0000) % TWO32, c as int)
  }

  /**
   * The two accumulators after reading w[i..end) into (h1, h2), two
   * characters per round: the first of a round goes into h1, the second
   * into h2.
   */
  function Rounds(w: seq<char>, i: int, end: int, h1: nat, h2: nat): (nat, nat)
    requires 0 <= i && end <= |w|
    decreases end - i
  {
    if i >= end then (h1, h2)
    else if i + 1 >= end then (Mix(h1, w[i]), h2)
    else Rounds(w, i + 2, end, Mix(h1, w[i]), Mix(h2, w[i + 1]))
  }

  /** The rounds depend only on the characters read: the slice gives the same accumulators. */
  lemma {:induction false} RoundsSlice(w: seq<char>, start: int, i: int, end: int, h1: nat, h2: nat)
    requires 0 <= start <= i <= end <= |w|
    ensures Rounds(w, i, end, h1, h2) == Rounds(w[start..end], i - start, end - start, h1, h2)
    decreases end - i
  {
    var t := w[start..end];
    if i + 1 < end {
      assert t[i - start] == w[i] && t[i + 1 - start] == w[i + 1];
      RoundsSlice(w, start, i + 2, end, Mix(h1, w[i]), Mix(h2, w[i + 1]));
    } else if i < end {
      assert t[i - start] == w[i];
    }
  }

  /** The hash code of a character sequence. */
  function HashOf(s: seq<char>): nat
  {
    Combine(Rounds(s, 0, |s|, SEED, SEED))
  }

  /** `hash1 + hash2 * 0x5d588b65` in 32-bit unsigned arithmetic. */
  function Combine(p: (nat, nat)): nat
  {
    (p.0 + p.1 * MULT) % TWO32
  }

  /** The end of the slice hash and lookup read: with a negative length, the end of the word. */
  function End(word: seq<char>, start: int, length: int): int
  {
    if length < 0 then |word| else start + length
  }

  /** The bucket of a hash code in a table of n buckets (`hash % (uint)n`). */
  function Bucket(h: int, n: int): int
    requires n > 0
  {
    h % n
  }

  // ---------------------------------------------------------------------
  // Homonyms: the entries with one word, in arena order

  /** The first index at or after j holding word w, or -1. */
  function Scan(es: seq<HEntry>, w: string, j: nat): int
    decreases |es| - j
  {
    if j >= |es| then -1 else if es[j].word == w then j else Scan(es, w, j + 1)
  }

  /** The first entry holding w, or -1: a linear search of the whole arena. */
  function Find(es: seq<HEntry>, w: string): int
  {
    Scan(es, w, 0)
  }

  /** The next homonym of entry e: the first later entry with the same word, or -1. */
  function NextSame(es: seq<HEntry>, e: int): int
    requires 0 <= e < |es|
  {
    Scan(es, es[e].word, e + 1)
  }

  lemma {:induction false} ScanSpec(es: seq<HEntry>, w: string, j: nat)
    ensures var r := Scan(es, w, j);
      (r == -1 || (j <= r < |es| && es[r].word == w)) &&
      (forall i :: j <= i < |es| && (r == -1 || i < r) ==> es[i].word != w)
    decreases |es| - j
  {
    if j < |es| && es[j].word != w {
      ScanSpec(es, w, j + 1);
    }
  }

  /** Find is the first occurrence: -1 exactly when no entry holds w. */
  lemma FindSpec(es: seq<HEntry>, w: string)
    ensures Find(es, w) == -1 <==> forall i :: 0 <= i < |es| ==> es[i].word != w
    ensures Find(es, w) != -1 ==>
      0 <= Find(es, w) < |es| && es[Find(es, w)].word == w && forall i :: 0 <= i < Find(es, w) ==> es[i].word != w
  {
    ScanSpec(es, w, 0);
  }

  /** A scan that meets an entry holding w stops there. */
  lemma {:induction false} ScanHit(es: seq<HEntry>, w: string, j: nat, r: int)
    requires j <= r < |es| && es[r].word == w
    requires forall i :: j <= i < r ==> es[i].word != w
    ensures Scan(es, w, j) == r
    decreases r - j
  {
    if j < r {
      ScanHit(es, w, j + 1, r);
    }
  }

  /** A scan over entries none of which holds w finds nothing. */
  lemma {:induction false} ScanMiss(es: seq<HEntry>, w: string, j: nat)
    requires forall i :: j <= i < |es| ==> es[i].word != w
    ensures Scan(es, w, j) == -1
    decreases |es| - j
  {
    if j < |es| {
      ScanMiss(es, w, j + 1);
    }
  }

  // ---------------------------------------------------------------------
  // The invariant of the table

  /** Same-word entries of a chain appear in increasing arena order. */
  ghost predicate OrderedSeq(es: seq<HEntry>, c: seq<int>)
  {
    forall k1, k2 ::
      0 <= k1 < k2 < |c| && 0 <= c[k1] < |es| && 0 <= c[k2] < |es| && es[c[k1]].word == es[c[k2]].word ==>
      c[k1] < c[k2]
  }

  /** Position k of chain b holds an entry whose hash code selects bucket b. */
  ghost predicate InBucket(es: seq<HEntry>, chains: seq<seq<int>>, b: int, k: int)
    requires 0 <= b < |chains| && 0 <= k < |chains[b]|
  {
    0 <= chains[b][k] < |es| && Bucket(es[chains[b][k]].hash, |chains|) == b
  }

  /** The heads and links realise disjoint chains, one per bucket. */
  ghost predicate Shape(heads: seq<int>, es: seq<HEntry>, nx: seq<int>, chains: seq<seq<int>>)
  {
    |heads| == |chains| > 0 && |nx| == |es| &&
    (forall b :: 0 <= b < |chains| ==> heads[b] == Head(chains[b])) &&
    Realizes(nx, chains) && Disjoint(chains)
  }

  /** Every chained entry is in the bucket its hash code selects, and every entry is chained. */
  ghost predicate Placed(es: seq<HEntry>, chains: seq<seq<int>>)
  {
    |chains| > 0 &&
    (forall b, k :: 0 <= b < |chains| && 0 <= k < |chains[b]| ==> InBucket(es, chains, b, k)) &&
    (forall e :: 0 <= e < |es| ==> Chained(es, chains, e))
  }

  /** Entry e is in the chain of the bucket its hash code selects. */
  ghost predicate Chained(es: seq<HEntry>, chains: seq<seq<int>>, e: int)
    requires 0 <= e < |es| && |chains| > 0
  {
    e in chains[Bucket(es[e].hash, |chains|)]
  }

  /** Each stored hash code is the hash of the stored word. */
  ghost predicate Hashed(es: seq<HEntry>)
  {
    forall e :: 0 <= e < |es| ==> HashedAt(es, e)
  }

  ghost predicate HashedAt(es: seq<HEntry>, e: int)
    requires 0 <= e < |es|
  {
    es[e].hash == HashOf(es[e].word)
  }

  ghost predicate Ordered(es: seq<HEntry>, chains: seq<seq<int>>)
  {
    forall b :: 0 <= b < |chains| ==> OrderedSeq(es, chains[b])
  }

  /** Each next_homonym link names the next entry with the same word. */
  ghost predicate Homonyms(es: seq<HEntry>, nh: seq<int>)
  {
    |nh| == |es| && forall e :: 0 <= e < |es| ==> HomonymAt(es, nh, e)
  }

  ghost predicate HomonymAt(es: seq<HEntry>, nh: seq<int>, e: int)
    requires 0 <= e < |es| == |nh|
  {
    nh[e] == NextSame(es, e)
  }

  ghost predicate Consistent(heads: seq<int>, es: seq<HEntry>, nx: seq<int>, nh: seq<int>, chains: seq<seq<int>>)
  {
    Shape(heads, es, nx, chains) && Placed(es, chains) && Hashed(es) && Ordered(es, chains) && Homonyms(es, nh)
  }

  /** Every entry holding w sits in the chain of w's bucket. */
  lemma InItsBucket(es: seq<HEntry>, chains: seq<seq<int>>, w: string, e: int)
    requires Placed(es, chains) && Hashed(es) && 0 <= e < |es| && es[e].word == w
    ensures exists k :: 0 <= k < |chains[Bucket(HashOf(w), |chains|)]| && chains[Bucket(HashOf(w), |chains|)][k] == e
  {
    assert Chained(es, chains, e) && HashedAt(es, e);
  }

  /** Position k of chain c names an entry holding w. */
  predicate HoldsAt(es: seq<HEntry>, c: seq<int>, k: int, w: string)
  {
    0 <= k < |c| && 0 <= c[k] < |es| && es[c[k]].word == w
  }

  /**
   * What a walk along chain c for word w with hash code hv needs: each
   * position names an entry and links to its successor, and an entry
   * holding w has hash code hv.
   */
  ghost predicate Walkable(es: seq<HEntry>, nx: seq<int>, c: seq<int>, w: string, hv: int)
  {
    |nx| == |es| && (forall k :: 0 <= k < |c| ==> 0 <= c[k]) &&
    forall k :: 0 <= k < |c| ==> StepAt(es, nx, c, k, w, hv)
  }

  ghost predicate StepAt(es: seq<HEntry>, nx: seq<int>, c: seq<int>, k: int, w: string, hv: int)
    requires 0 <= k < |c|
  {
    0 <= c[k] < |es| && |nx| == |es| && nx[c[k]] == Succ(c, k) && (es[c[k]].word == w ==> es[c[k]].hash == hv)
  }

  /** Every bucket chain of a consistent table is walkable, for every word. */
  lemma ChainWalkable(heads: seq<int>, es: seq<HEntry>, nx: seq<int>, nh: seq<int>, chains: seq<seq<int>>, b: int, w: string)
    requires Consistent(heads, es, nx, nh, chains) && 0 <= b < |chains|
    ensures Walkable(es, nx, chains[b], w, HashOf(w)) && heads[b] == Head(chains[b])
  {
    forall k | 0 <= k < |chains[b]|
      ensures 0 <= chains[b][k] && StepAt(es, nx, chains[b], k, w, HashOf(w))
    {
      assert LinkAt(nx, chains, b, k);
      assert HashedAt(es, chains[b][k]);
    }
  }

  /**
   * The first chain position holding w is the first arena entry holding w;
   * a chain without w means no entry holds w.
   */
  lemma ChainFind(heads: seq<int>, es: seq<HEntry>, nx: seq<int>, nh: seq<int>, chains: seq<seq<int>>, w: string, k: int)
    requires Consistent(heads, es, nx, nh, chains)
    requires var c := chains[Bucket(HashOf(w), |chains|)];
      0 <= k <= |c| && forall k' :: 0 <= k' < k ==> !HoldsAt(es, c, k', w)
    ensures var c := chains[Bucket(HashOf(w), |chains|)];
      HoldsAt(es, c, k, w) ==> Find(es, w) == c[k]
    ensures k == |chains[Bucket(HashOf(w), |chains|)]| ==> Find(es, w) == -1
  {
    var b := Bucket(HashOf(w), |chains|);
    var c := chains[b];
    forall e | 0 <= e < |es| && es[e].word == w
      ensures k < |c| && (HoldsAt(es, c, k, w) ==> c[k] <= e)
    {
      InItsBucket(es, chains, w, e);
      var k2 :| 0 <= k2 < |c| && c[k2] == e;
      assert !HoldsAt(es, c, k2, w) || k <= k2;
      if HoldsAt(es, c, k, w) && k < k2 {
        assert OrderedSeq(es, c);
      }
    }
    if HoldsAt(es, c, k, w) {
      ScanHit(es, w, 0, c[k]);
    }
    if k == |c| {
      ScanMiss(es, w, 0);
    }
  }

}
