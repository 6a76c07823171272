/**
 * Ordinal string order (`string.CompareOrdinal`) and the subset tests of
 * the affix index (AffixMgr.cs isSubset / isRevSubset).
 */
module Ordinal {
  import opened Base

  /** `string.CompareOrdinal(a, b) <= 0`: character codes compared left to right, a prefix first. */
  predicate LexLe(a: seq<char>, b: seq<char>)
    decreases |a|
  {
    a == [] || (b != [] && (a[0] < b[0] || (a[0] == b[0] && LexLe(a[1..], b[1..]))))
  }

  lemma {:induction false} LexLeRefl(a: seq<char>)
    ensures LexLe(a, a)
    decreases |a|
  {
    if a != [] {
      LexLeRefl(a[1..]);
    }
  }

  lemma {:induction false} LexLeTotal(a: seq<char>, b: seq<char>)
    ensures LexLe(a, b) || LexLe(b, a)
    decreases |a|
  {
    if a != [] && b != [] && a[0] == b[0] {
      LexLeTotal(a[1..], b[1..]);
    }
  }

  lemma {:induction false} LexLeTrans(a: seq<char>, b: seq<char>, c: seq<char>)
    requires LexLe(a, b) && LexLe(b, c)
    ensures LexLe(a, c)
    decreases |a|
  {
    if a != [] && a[0] == b[0] && b[0] == c[0] {
      LexLeTrans(a[1..], b[1..], c[1..]);
    }
  }

  lemma {:induction false} LexLeAntisym(a: seq<char>, b: seq<char>)
    requires LexLe(a, b) && LexLe(b, a)
    ensures a == b
    decreases |a|
  {
    if a != [] {
      LexLeAntisym(a[1..], b[1..]);
      assert a == [a[0]] + a[1..] && b == [b[0]] + b[1..];
    }
  }

  /** A prefix comes first. */
  lemma {:induction false} PrefixLexLe(a: seq<char>, b: seq<char>)
    requires IsPrefix(a, b)
    ensures LexLe(a, b)
    decreases |a|
  {
    if a != [] {
      assert b[1..][..|a| - 1] == a[1..];
      PrefixLexLe(a[1..], b[1..]);
    }
  }

  /**
   * Contiguity: everything ordinally between a string and one of its
   * extensions extends it as well.
   */
  lemma {:induction false} BetweenExtends(p: seq<char>, m: seq<char>, b: seq<char>)
    requires IsPrefix(p, b) && LexLe(p, m) && LexLe(m, b)
    ensures IsPrefix(p, m)
    decreases |p|
  {
    if p != [] {
      assert b != [] && b[0] == p[0];
      assert m != [] && m[0] == p[0];
      assert b[1..][..|p| - 1] == p[1..];
      BetweenExtends(p[1..], m[1..], b[1..]);
      assert m[..|p|] == [m[0]] + m[1..][..|p| - 1];
    }
  }

  /** Two prefixes of one word: one is a prefix of the other. */
  lemma PrefixesNest(a: seq<char>, b: seq<char>, w: seq<char>)
    requires IsPrefix(a, w) && IsPrefix(b, w)
    ensures IsPrefix(a, b) || IsPrefix(b, a)
  {
    if |a| <= |b| {
      assert b[..|a|] == w[..|a|];
    } else {
      assert a[..|b|] == w[..|b|];
    }
  }

  /**
   * isSubset's reading: s1 fits inside `w` from its first character, where
   * a `.` in s1 stands for any character.
   */
  predicate Subset(s1: seq<char>, w: seq<char>)
  {
    |s1| <= |w| && forall i :: 0 <= i < |s1| ==> s1[i] == w[i] || s1[i] == '.'
  }

  predicate DotFree(s: seq<char>)
  {
    forall i :: 0 <= i < |s| ==> s[i] != '.'
  }

  lemma SubsetIsPrefix(s1: seq<char>, w: seq<char>)
    requires DotFree(s1)
    ensures Subset(s1, w) <==> IsPrefix(s1, w)
  {
    if Subset(s1, w) {
      assert w[..|s1|] == s1;
    }
    if IsPrefix(s1, w) {
      forall i | 0 <= i < |s1| ensures s1[i] == w[i] {
        assert w[..|s1|][i] == w[i];
      }
    }
  }

  /**
   * isSubset(s1, s2, start): compares s1 with s2 from `start` until either
   * runs out; true when all of s1 was consumed.
   */
  method IsSubset(s1: seq<char>, s2: seq<char>, start: nat) returns (r: bool)
    ensures start <= |s2| ==> (r <==> Subset(s1, s2[start..]))
    ensures start > |s2| ==> (r <==> |s1| == 0)
  {
    var i1, i2 := 0, start;
    while i1 < |s1| && i2 < |s2|
      invariant 0 <= i1 <= |s1| && i2 == start + i1
      invariant i1 == 0 || i2 <= |s2|
      invariant forall k :: 0 <= k < i1 ==> s1[k] == s2[start + k] || s1[k] == '.'
    {
      if s1[i1] != s2[i2] && s1[i1] != '.' {
        break;
      }
      i1, i2 := i1 + 1, i2 + 1;
    }
    r := i1 == |s1|;
    if start <= |s2| {
      var w := s2[start..];
      if r {
        forall k | 0 <= k < |s1| ensures s1[k] == w[k] || s1[k] == '.' {
          assert w[k] == s2[start + k];
        }
      } else if i2 < |s2| {
        assert w[i1] == s2[i2];
      }
    }
  }

  /** The `len` characters of s2 ending at end_of_s2, last one first. */
  function Backward(s2: seq<char>, end_of_s2: int, len: nat): (w: seq<char>)
    requires len <= end_of_s2 + 1 <= |s2|
    ensures |w| == len && forall k :: 0 <= k < len ==> w[k] == s2[end_of_s2 - k]
  {
    Reverse(s2[end_of_s2 + 1 - len..end_of_s2 + 1])
  }

  /**
   * isRevSubset(s1, s2, end_of_s2, len): s1 compared with s2 read backward
   * from end_of_s2, for at most len characters.
   */
  method IsRevSubset(s1: seq<char>, s2: seq<char>, end_of_s2: int, len: nat) returns (r: bool)
    requires len <= end_of_s2 + 1 <= |s2|
    ensures r <==> Subset(s1, Backward(s2, end_of_s2, len))
  {
    var i1, e, l := 0, end_of_s2, len;
    ghost var w := Backward(s2, end_of_s2, len);
    while l > 0 && i1 < |s1| && (s1[i1] == s2[e] || s1[i1] == '.')
      invariant 0 <= i1 <= |s1| && i1 <= len && e == end_of_s2 - i1 && l == len - i1
      invariant forall k :: 0 <= k < i1 ==> s1[k] == w[k] || s1[k] == '.'
    {
      assert w[i1] == s2[e];
      i1, e, l := i1 + 1, e - 1, l - 1;
    }
    r := i1 == |s1|;
    if !r && l > 0 {
      assert w[i1] == s2[e];
    }
  }
}
