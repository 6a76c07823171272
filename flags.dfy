/**
 * Affix flag sets (Utils.cs). A flag set is an array of 16-bit flags kept
 * sorted and free of duplicates, so that membership can be decided by a
 * short backward scan or by binary search.
 */
module Flags {
  import opened Base

  type Flag = u16

  /** Flags at or above this value are reserved for internal markers. */
  const DEFAULTFLAGS: int := 65510
  /** Internal marker of a forbidden (removed) word. */
  const FORBIDDENWORD: Flag := 65510
  /** Internal marker of a hidden all-uppercase homonym. */
  const ONLYUPCASEFLAG: Flag := 65511

  /** Nondecreasing order, the order `Array.Sort` leaves behind. */
  predicate Sorted(a: seq<Flag>)
  {
    forall i, j :: 0 <= i < j < |a| ==> a[i] <= a[j]
  }

  /** Strictly increasing order: sorted and free of duplicates. */
  predicate StrictlySorted(a: seq<Flag>)
  {
    forall i, j :: 0 <= i < j < |a| ==> a[i] < a[j]
  }

  /** Membership in a flag set that may be absent (`null`). */
  predicate Has(a: Option<seq<Flag>>, b: Flag)
  {
    a.Some? && b in a.value
  }

  /**
   * TESTAFF: a short array (fewer than 5 flags) is scanned from the end,
   * stopping at the first smaller flag; a longer one is binary searched.
   * Whatever the array, a `true` answer is a real membership; on a sorted
   * array the answer is exact.
   */
  method TestAff(a: Option<seq<Flag>>, b: Flag) returns (r: bool)
    ensures r ==> Has(a, b)
    ensures a.Some? && Sorted(a.value) ==> (r <==> Has(a, b))
    ensures r == Probe(a, b)
  {
    ProbeSound(a, b);
    if a.Some? && Sorted(a.value) {
      ProbeExact(a, b);
    }
    if a.None? {
      return false;
    }
    var s := a.value;
    if |s| < 5 {
      var i := |s| - 1;
      while i >= 0
        invariant -1 <= i < |s|
        invariant ScanBack(s, i, b) == Probe(a, b)
      {
        if s[i] == b {
          return true;
        } else if s[i] < b {
          break;
        }
        i := i - 1;
      }
      return false;
    }
    var lo, hi := 0, |s|;
    while lo < hi
      invariant 0 <= lo <= hi <= |s|
      invariant Bisect(s, lo, hi, b) == Probe(a, b)
    {
      var i := (lo + hi) / 2;
      if s[i] == b {
        return true;
      }
      if s[i] < b {
        lo := i + 1;
      } else {
        hi := i;
      }
    }
    return false;
  }

  /**
   * The answer TESTAFF computes, whether or not the array is sorted: the
   * backward scan from index i, which gives up at the first smaller flag.
   */
  function ScanBack(s: seq<Flag>, i: int, b: Flag): bool
    requires -1 <= i < |s|
    decreases i + 1
  {
    if i < 0 then false else if s[i] == b then true else if s[i] < b then false else ScanBack(s, i - 1, b)
  }

  /** The binary search of TESTAFF over s[lo..hi]. */
  function Bisect(s: seq<Flag>, lo: int, hi: int, b: Flag): bool
    requires 0 <= lo <= hi <= |s|
    decreases hi - lo
  {
    if lo >= hi then false
    else
      var i := (lo + hi) / 2;
      if s[i] == b then true else if s[i] < b then Bisect(s, i + 1, hi, b) else Bisect(s, lo, i, b)
  }

  /** TESTAFF(a, b) as a function of the array, sorted or not. */
  function Probe(a: Option<seq<Flag>>, b: Flag): bool
  {
    if a.None? then false
    else if |a.value| < 5 then ScanBack(a.value, |a.value| - 1, b)
    else Bisect(a.value, 0, |a.value|, b)
  }

  /** A positive probe is a real membership, whatever the order of the array. */
  lemma {:induction false} ProbeSound(a: Option<seq<Flag>>, b: Flag)
    ensures Probe(a, b) ==> Has(a, b)
  {
    if a.Some? {
      if |a.value| < 5 {
        ScanBackSound(a.value, |a.value| - 1, b);
      } else {
        BisectSound(a.value, 0, |a.value|, b);
      }
    }
  }

  lemma {:induction false} ScanBackSound(s: seq<Flag>, i: int, b: Flag)
    requires -1 <= i < |s|
    ensures ScanBack(s, i, b) ==> b in s
    decreases i + 1
  {
    if i >= 0 && s[i] != b && s[i] > b {
      ScanBackSound(s, i - 1, b);
    }
  }

  lemma {:induction false} BisectSound(s: seq<Flag>, lo: int, hi: int, b: Flag)
    requires 0 <= lo <= hi <= |s|
    ensures Bisect(s, lo, hi, b) ==> b in s
    decreases hi - lo
  {
    if lo < hi {
      var i := (lo + hi) / 2;
      if s[i] < b {
        BisectSound(s, i + 1, hi, b);
      } else if s[i] > b {
        BisectSound(s, lo, i, b);
      }
    }
  }

  /** On a sorted array the probe is exact. */
  lemma ProbeExact(a: Option<seq<Flag>>, b: Flag)
    requires a.Some? ==> Sorted(a.value)
    ensures Probe(a, b) <==> Has(a, b)
  {
    if a.Some? {
      var s := a.value;
      if |s| < 5 {
        ScanBackExact(s, |s| - 1, b);
      } else {
        BisectExact(s, 0, |s|, b);
      }
      assert b in s <==> exists k :: 0 <= k < |s| && s[k] == b;
    }
  }

  lemma {:induction false} ScanBackExact(s: seq<Flag>, i: int, b: Flag)
    requires Sorted(s) && -1 <= i < |s|
    ensures ScanBack(s, i, b) <==> exists k :: 0 <= k <= i && s[k] == b
    decreases i + 1
  {
    if i >= 0 && s[i] != b {
      if s[i] < b {
        forall k | 0 <= k <= i ensures s[k] != b {
          assert s[k] <= s[i];
        }
      } else {
        ScanBackExact(s, i - 1, b);
      }
    }
  }

  lemma {:induction false} BisectExact(s: seq<Flag>, lo: int, hi: int, b: Flag)
    requires Sorted(s) && 0 <= lo <= hi <= |s|
    ensures Bisect(s, lo, hi, b) <==> exists k :: lo <= k < hi && s[k] == b
    decreases hi - lo
  {
    if lo < hi {
      var i := (lo + hi) / 2;
      if s[i] < b {
        BisectExact(s, i + 1, hi, b);
        forall k | lo <= k <= i ensures s[k] != b {
          assert s[k] <= s[i];
        }
      } else if s[i] > b {
        BisectExact(s, lo, i, b);
        forall k | i <= k < hi ensures s[k] != b {
          assert s[i] <= s[k];
        }
      }
    }
  }

  /** The flags of `a` with `f` inserted before the first larger-or-equal one. */
  function Insert(a: seq<Flag>, f: Flag): (r: seq<Flag>)
  {
    if a == [] || f <= a[0] then [f] + a else [a[0]] + Insert(a[1..], f)
  }

  lemma {:induction false} InsertElements(a: seq<Flag>, f: Flag)
    ensures |Insert(a, f)| == |a| + 1
    ensures forall k :: 0 <= k < |Insert(a, f)| ==> Insert(a, f)[k] == f || Insert(a, f)[k] in a
  {
    if a != [] && f > a[0] {
      InsertElements(a[1..], f);
    }
  }

  lemma {:induction false} InsertMultiset(a: seq<Flag>, f: Flag)
    ensures multiset(Insert(a, f)) == multiset(a) + multiset{f}
  {
    if a != [] && f > a[0] {
      assert a == [a[0]] + a[1..];
      InsertMultiset(a[1..], f);
    }
  }

  lemma {:induction false} InsertKeepsSorted(a: seq<Flag>, f: Flag)
    requires Sorted(a)
    ensures Sorted(Insert(a, f))
  {
    if a != [] && f > a[0] {
      var t := Insert(a[1..], f);
      SortedTail(a);
      InsertKeepsSorted(a[1..], f);
      InsertElements(a[1..], f);
      forall k | 0 <= k < |t| ensures a[0] <= t[k] {
        if t[k] != f {
          assert t[k] in a[1..];
        }
      }
      SortedCons(a[0], t);
    }
  }

  /** The tail of a sorted sequence is sorted, and its head is at most every element of the tail. */
  lemma SortedTail(a: seq<Flag>)
    requires Sorted(a) && a != []
    ensures Sorted(a[1..]) && forall x :: x in a[1..] ==> a[0] <= x
  {
    forall i, j | 0 <= i < j < |a[1..]| ensures a[1..][i] <= a[1..][j] {
      assert a[1..][i] == a[i + 1] && a[1..][j] == a[j + 1];
    }
    forall x | x in a[1..] ensures a[0] <= x {
      var k :| 0 <= k < |a[1..]| && a[1..][k] == x;
      assert a[k + 1] == x;
    }
  }

  /** A flag at most every element of a sorted sequence may go in front of it. */
  lemma SortedCons(x: Flag, t: seq<Flag>)
    requires Sorted(t) && forall k :: 0 <= k < |t| ==> x <= t[k]
    ensures Sorted([x] + t)
  {
    var r := [x] + t;
    forall i, j | 0 <= i < j < |r| ensures r[i] <= r[j] {
      assert r[j] == t[j - 1];
      if i > 0 {
        assert r[i] == t[i - 1];
      }
    }
  }

  /** The sorted arrangement of a flag sequence (insertion sort). */
  function SortFlags(s: seq<Flag>): (r: seq<Flag>)
  {
    if s == [] then [] else Insert(SortFlags(s[1..]), s[0])
  }

  lemma {:induction false} SortFlagsCorrect(s: seq<Flag>)
    ensures Sorted(SortFlags(s))
    ensures multiset(SortFlags(s)) == multiset(s)
    ensures |SortFlags(s)| == |s|
  {
    if s != [] {
      SortFlagsCorrect(s[1..]);
      InsertKeepsSorted(SortFlags(s[1..]), s[0]);
      InsertMultiset(SortFlags(s[1..]), s[0]);
      InsertElements(SortFlags(s[1..]), s[0]);
      assert s == [s[0]] + s[1..];
    }
  }

  /** Array.Sort on a flag array: the array ends up holding SortFlags of its contents. */
  method SortInPlace(a: array<Flag>)
    modifies a
    ensures Sorted(a[..])
    ensures multiset(a[..]) == multiset(old(a[..]))
    ensures a[..] == SortFlags(old(a[..]))
  {
    var t := SortFlags(a[..]);
    SortFlagsCorrect(a[..]);
    var k := 0;
    while k < a.Length
      invariant 0 <= k <= a.Length
      invariant a[..k] == t[..k]
      invariant a[k..] == old(a[..])[k..]
    {
      a[k] := t[k];
      k := k + 1;
      assert a[..k] == a[..k - 1] + [t[k - 1]];
    }
    assert a[..] == a[..a.Length];
    assert t == t[..a.Length];
  }

  /**
   * SortRemoveDuplicates: sorts the flags, compacts away repeated values and
   * shrinks the array when something was dropped. Arrays of at most one flag
   * are returned as they are.
   */
  method SortRemoveDuplicates(a: array<Flag>) returns (r: array<Flag>)
    modifies a
    ensures StrictlySorted(r[..])
    ensures forall x :: x in r[..] <==> x in old(a[..])
    ensures a.Length <= 1 ==> r == a && r[..] == old(a[..])
    ensures r[..] == Dedup(SortFlags(old(a[..])))
  {
    var n := a.Length;
    if n <= 1 {
      assert a[..] == SortFlags(a[..]) == Dedup(a[..]) by {
        if n == 1 {
          assert a[..] == [a[0]];
        }
      }
      return a;
    }
    ghost var original := a[..];
    SortInPlace(a);
    SortDedup(original);
    var j := Compact(a);
    if j < n {
      r := new Flag[j](k requires 0 <= k < j reads a => a[k]);
      assert r[..] == a[..j];
    } else {
      assert a[..j] == a[..];
      r := a;
    }
  }

  /** Sorting and then dropping repeats gives the flags of s, strictly ascending. */
  lemma SortDedup(s: seq<Flag>)
    ensures StrictlySorted(Dedup(SortFlags(s)))
    ensures forall x :: x in Dedup(SortFlags(s)) <==> x in s
  {
    SortFlagsCorrect(s);
    DedupSorted(SortFlags(s));
    forall x ensures x in SortFlags(s) <==> x in s {
      assert x in SortFlags(s) <==> x in multiset(SortFlags(s));
      assert x in s <==> x in multiset(s);
    }
  }

  /** The sequence with each run of equal neighbours reduced to one flag. */
  function Dedup(s: seq<Flag>): seq<Flag>
    decreases |s|
  {
    if |s| <= 1 then s
    else if s[|s| - 1] == s[|s| - 2] then Dedup(s[..|s| - 1])
    else Dedup(s[..|s| - 1]) + [s[|s| - 1]]
  }

  /** Extending the read prefix by one flag extends Dedup by that flag, unless it repeats the last. */
  lemma DedupSnoc(s: seq<Flag>, i: int)
    requires 1 <= i < |s|
    ensures Dedup(s[..i + 1]) == if s[i] == s[i - 1] then Dedup(s[..i]) else Dedup(s[..i]) + [s[i]]
  {
    var t := s[..i + 1];
    assert t[..|t| - 1] == s[..i];
  }

  /** Dedup of a nonempty sequence ends with its last flag and keeps only its flags. */
  lemma {:induction false} DedupMembers(s: seq<Flag>)
    ensures |s| > 0 ==> |Dedup(s)| > 0 && Dedup(s)[|Dedup(s)| - 1] == s[|s| - 1]
    ensures forall x :: x in Dedup(s) <==> x in s
    decreases |s|
  {
    if |s| > 1 {
      var t := s[..|s| - 1];
      DedupMembers(t);
      assert s == t + [s[|s| - 1]];
      assert s[|s| - 2] == t[|t| - 1];
    }
  }

  /** Dedup of a sorted sequence is strictly ascending. */
  lemma {:induction false} DedupSorted(s: seq<Flag>)
    requires Sorted(s)
    ensures StrictlySorted(Dedup(s))
    ensures forall x :: x in Dedup(s) <==> x in s
    decreases |s|
  {
    DedupMembers(s);
    if |s| > 1 {
      var t := s[..|s| - 1];
      assert Sorted(t) by {
        forall p, q | 0 <= p < q < |t| ensures t[p] <= t[q] {
          assert t[p] == s[p] && t[q] == s[q];
        }
      }
      DedupSorted(t);
      DedupMembers(t);
      var d := Dedup(t);
      if s[|s| - 1] != s[|s| - 2] {
        var e := d + [s[|s| - 1]];
        forall p, q | 0 <= p < q < |e| ensures e[p] < e[q] {
          if q == |d| {
            assert d[p] in t;
            var k :| 0 <= k < |t| && t[k] == d[p];
            assert s[k] <= s[|s| - 2] <= s[|s| - 1];
            assert d[p] != s[|s| - 1] by {
              if p == |d| - 1 {
              } else {
                assert d[p] < d[|d| - 1] == t[|t| - 1];
              }
            }
          }
        }
      }
    }
  }

  /**
   * The compaction pass of SortRemoveDuplicates over a sorted array: the
   * distinct flags move to the front.
   */
  method Compact(a: array<Flag>) returns (j: nat)
    requires a.Length >= 1
    modifies a
    ensures 1 <= j <= a.Length
    ensures a[..j] == Dedup(old(a[..]))
  {
    ghost var sorted := a[..];
    var n := a.Length;
    var prev := a[0];
    j := 1;
    var i := 1;
    assert a[..1] == sorted[..1] == [a[0]];
    while i < n
      invariant 1 <= j <= i <= n
      invariant a[..j] == Dedup(sorted[..i])
      invariant forall k :: j <= k < n ==> a[k] == sorted[k]
      invariant prev == sorted[i - 1]
    {
      var v := a[i];
      DedupSnoc(sorted, i);
      if v != prev {
        a[j] := v;
        assert a[..j + 1] == a[..j] + [v];
        j := j + 1;
        prev := v;
      }
      i := i + 1;
    }
    assert sorted[..n] == sorted;
  }

  /**
   * Array.BinarySearch on a flag array: the index of an element equal to v,
   * or the bitwise complement `-lo - 1` of the place where the search ended.
   */
  function BinarySearch(a: seq<Flag>, v: Flag): (r: int)
    ensures r >= 0 ==> r < |a| && a[r] == v
    ensures r < 0 ==> -r - 1 <= |a|
  {
    Halve(a, v, 0, |a| - 1)
  }

  /** The search loop over the closed range [lo, hi], halving at `lo + (hi - lo) / 2`. */
  function Halve(a: seq<Flag>, v: Flag, lo: int, hi: int): (r: int)
    requires 0 <= lo <= hi + 1 <= |a|
    ensures r >= 0 ==> lo <= r <= hi && a[r] == v
    ensures r < 0 ==> lo <= -r - 1 <= hi + 1
    decreases hi - lo + 1
  {
    if lo > hi then -lo - 1
    else
      var i := lo + (hi - lo) / 2;
      if a[i] == v then i else if a[i] < v then Halve(a, v, i + 1, hi) else Halve(a, v, lo, i - 1)
  }

  /**
   * On a sorted array the search is exact: it finds v when v is there, and
   * otherwise returns the complement of the position that keeps the array
   * sorted, where Insert puts v.
   */
  lemma BinarySearchSorted(a: seq<Flag>, v: Flag)
    requires Sorted(a)
    ensures var r := BinarySearch(a, v);
      (r >= 0 <==> v in a) && (r < 0 ==> a[..-r - 1] + [v] + a[-r - 1..] == Insert(a, v))
  {
    HalveSorted(a, v, 0, |a| - 1);
    var r := BinarySearch(a, v);
    if r < 0 {
      InsertSplit(a, v, -r - 1);
    }
  }

  lemma {:induction false} HalveSorted(a: seq<Flag>, v: Flag, lo: int, hi: int)
    requires 0 <= lo <= hi + 1 <= |a| && Sorted(a)
    requires forall k :: 0 <= k < lo ==> a[k] < v
    requires forall k :: hi < k < |a| ==> a[k] > v
    ensures var r := Halve(a, v, lo, hi);
      (r >= 0 <==> v in a) && (r < 0 ==> (forall k :: 0 <= k < -r - 1 ==> a[k] < v) && forall k :: -r - 1 <= k < |a| ==> a[k] > v)
    decreases hi - lo + 1
  {
    if lo <= hi {
      var i := lo + (hi - lo) / 2;
      if a[i] < v {
        forall k | 0 <= k <= i ensures a[k] < v {
          assert a[k] <= a[i];
        }
        HalveSorted(a, v, i + 1, hi);
      } else if a[i] > v {
        forall k | i <= k < |a| ensures a[k] > v {
          assert a[i] <= a[k];
        }
        HalveSorted(a, v, lo, i - 1);
      }
    } else {
      assert forall k :: 0 <= k < |a| ==> a[k] != v;
    }
  }

  /** Insert puts v at the position j that splits the array into smaller and larger-or-equal flags. */
  lemma {:induction false} InsertSplit(a: seq<Flag>, v: Flag, j: int)
    requires 0 <= j <= |a|
    requires forall k :: 0 <= k < j ==> a[k] < v
    requires forall k :: j <= k < |a| ==> a[k] >= v
    ensures Insert(a, v) == a[..j] + [v] + a[j..]
  {
    if j > 0 {
      InsertSplit(a[1..], v, j - 1);
      assert a[1..][..j - 1] == a[1..j] && a[1..][j - 1..] == a[j..];
      assert a[..j] == [a[0]] + a[1..j];
    }
  }
}
