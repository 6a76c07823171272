/**
 * Extensions.cs: helpers over the two kinds of character sequence the
 * engine passes around (a `string` or a `char[]`, both `IEnumerable<char>`),
 * and over result builders.
 */
module Extensions {
  import opened Base
  import opened StrHelper

  /** An `IEnumerable<char>` argument: a string, a char array, or anything else. */
  datatype Chars = Str(s: seq<char>) | Arr(a: seq<char>) | OtherChars

  /** `s1.StartsWith(s2)` for a char array s2: compares from the end of s2 backward. */
  method StartsWith(s1: seq<char>, s2: seq<char>) returns (r: bool)
    ensures r <==> IsPrefix(s2, s1)
  {
    if |s1| < |s2| {
      return false;
    }
    var i := |s2| - 1;
    while i >= 0
      invariant -1 <= i < |s2|
      invariant forall k :: i < k < |s2| ==> s1[k] == s2[k]
    {
      if s1[i] != s2[i] {
        return false;
      }
      i := i - 1;
    }
    assert s1[..|s2|] == s2;
    return true;
  }

  /** `s1.EndsWith(s2)` for a char array s2: compares both from their ends. */
  method EndsWith(s1: seq<char>, s2: seq<char>) returns (r: bool)
    ensures r <==> IsSuffix(s2, s1)
  {
    if |s1| < |s2| {
      return false;
    }
    var i, j := |s1| - 1, |s2| - 1;
    while j >= 0
      invariant -1 <= j < |s2| && i == j + |s1| - |s2|
      invariant forall k :: j < k < |s2| ==> s1[k + |s1| - |s2|] == s2[k]
    {
      if s1[i] != s2[j] {
        assert s1[|s1| - |s2|..][j] != s2[j];
        return false;
      }
      i, j := i - 1, j - 1;
    }
    assert s1[|s1| - |s2|..] == s2;
    return true;
  }

  /** The characters of a string or char array; anything else has none (the source throws). */
  function Text(c: Chars): seq<char>
  {
    match c
    case Str(s) => s
    case Arr(a) => a
    case OtherChars => []
  }

  /** `Length()`: the same for both kinds; None where the source throws NotSupportedException. */
  function Length(c: Chars): (r: Option<nat>)
    ensures r.Some? <==> !c.OtherChars?
    ensures r.Some? ==> r.value == |Text(c)|
  {
    match c
    case Str(s) => Some(|s|)
    case Arr(a) => Some(|a|)
    case OtherChars => None
  }

  /** `At(index)`: the same for both kinds; None where the source throws. */
  function At(c: Chars, index: nat): (r: Option<char>)
    requires !c.OtherChars? ==> index < |Text(c)|
    ensures r.Some? <==> !c.OtherChars?
    ensures r.Some? ==> r.value == Text(c)[index]
  {
    match c
    case Str(s) => Some(s[index])
    case Arr(a) => Some(a[index])
    case OtherChars => None
  }

  /** Length and At do not depend on which of the two kinds holds the characters. */
  lemma SameForBothKinds(x: seq<char>, i: nat)
    requires i < |x|
    ensures Length(Str(x)) == Length(Arr(x)) == Some(|x|)
    ensures At(Str(x), i) == At(Arr(x), i) == Some(x[i])
  {
  }

  /**
   * `CopyTo(i1, dst, i2, len)`: copies len characters into dst at i2 and
   * leaves the rest of dst alone; `ok` is false where the source throws.
   */
  method CopyTo(src: Chars, i1: nat, dst: array<char>, i2: nat, len: nat) returns (ok: bool)
    requires !src.OtherChars? ==> i1 + len <= |Text(src)| && i2 + len <= dst.Length
    modifies dst
    ensures ok <==> !src.OtherChars?
    ensures ok ==> dst[i2..i2 + len] == Text(src)[i1..i1 + len]
    ensures forall k :: 0 <= k < dst.Length && !(ok && i2 <= k < i2 + len) ==> dst[k] == old(dst[k])
  {
    if src.OtherChars? {
      return false;
    }
    var t := Text(src);
    var k := 0;
    while k < len
      invariant 0 <= k <= len
      invariant dst[i2..i2 + k] == t[i1..i1 + k]
      invariant forall j :: 0 <= j < dst.Length && !(i2 <= j < i2 + k) ==> dst[j] == old(dst[j])
    {
      dst[i2 + k] := t[i1 + k];
      assert dst[i2..i2 + k + 1] == dst[i2..i2 + k] + [t[i1 + k]];
      assert t[i1..i1 + k + 1] == t[i1..i1 + k] + [t[i1 + k]];
      k := k + 1;
    }
    return true;
  }

  /** The first position p with from <= p < bound where v occurs in s, or -1. */
  function FirstOccurrenceBelow(v: seq<char>, s: seq<char>, from: nat, bound: int): (r: int)
    ensures r == -1 || (from <= r < bound && OccursAt(v, s, r))
    ensures forall p :: from <= p < bound && (r == -1 || p < r) ==> !OccursAt(v, s, p)
    decreases |s| - from
  {
    if from >= bound || from + |v| > |s| then -1
    else if s[from..from + |v|] == v then from
    else FirstOccurrenceBelow(v, s, from + 1, bound)
  }

  /** Array.IndexOf(s, c, from, count): the first position in [from, from+count) holding c, or -1. */
  function IndexOfChar(s: seq<char>, c: char, from: nat, count: nat): (r: int)
    requires from + count <= |s|
    ensures r == -1 || (from <= r < from + count && s[r] == c)
    ensures forall p :: from <= p < from + count && (r == -1 || p < r) ==> s[p] != c
    decreases count
  {
    if count == 0 then -1
    else if s[from] == c then from
    else IndexOfChar(s, c, from + 1, count - 1)
  }

  /**
   * The char[] branch of IndexOf: candidate first characters are searched
   * with Array.IndexOf over a window of `|s| - start - |value| + slack`
   * characters, and a candidate is kept when the rest of the value matches.
   * Only candidates below `|s| - |value| + slack` are ever looked at.
   */
  method SearchArray(s: seq<char>, value: seq<char>, start: nat, slack: int) returns (r: int)
    requires slack <= 1
    requires |value| > 0 || |s| - start - |value| + slack < 1
    ensures r == FirstOccurrenceBelow(value, s, start, |s| - |value| + slack)
  {
    var st := start;
    ghost var bound := |s| - |value| + slack;
    while true
      invariant start <= st
      invariant FirstOccurrenceBelow(value, s, st, bound) == FirstOccurrenceBelow(value, s, start, bound)
      decreases |s| - st
    {
      var len := |s| - st - |value| + slack;
      if len < 1 {
        FirstBelowEmpty(value, s, st, bound);
        return -1;
      }
      var p := IndexOfChar(s, value[0], st, len);
      if p < 0 {
        FirstBelowSkip(value, s, st, st + len, bound);
        FirstBelowEmpty(value, s, st + len, bound);
        return -1;
      }
      FirstBelowSkip(value, s, st, p, bound);
      var ok := RestMatches(s, value, p);
      if ok {
        return p;
      }
      st := p + 1;
    }
  }

  /** The inner loop of the char[] IndexOf: the characters after the first one match at p. */
  method RestMatches(s: seq<char>, value: seq<char>, p: nat) returns (ok: bool)
    requires |value| > 0 && p + |value| <= |s| && s[p] == value[0]
    ensures ok <==> OccursAt(value, s, p)
  {
    var i := 1;
    while i < |value|
      invariant 1 <= i <= |value|
      invariant forall k :: 0 <= k < i ==> s[k + p] == value[k]
    {
      if s[i + p] != value[i] {
        assert s[p..p + |value|][i] != value[i];
        return false;
      }
      i := i + 1;
    }
    assert s[p..p + |value|] == value by {
      forall k | 0 <= k < |value| ensures s[p..p + |value|][k] == value[k] {
      }
    }
    return true;
  }

  lemma FirstBelowEmpty(v: seq<char>, s: seq<char>, from: nat, bound: int)
    requires from >= bound
    ensures FirstOccurrenceBelow(v, s, from, bound) == -1
  {
  }

  /** Positions from..to-1 that hold no occurrence do not change the answer. */
  lemma {:induction false} FirstBelowSkip(v: seq<char>, s: seq<char>, from: nat, to: nat, bound: int)
    requires from <= to && to <= bound
    requires |v| > 0 && forall p :: from <= p < to && p < |s| ==> s[p] != v[0]
    ensures FirstOccurrenceBelow(v, s, from, bound) == FirstOccurrenceBelow(v, s, to, bound)
    decreases (to as int) - (from as int)
  {
    if from < to {
      if from + |v| <= |s| {
        assert s[from..from + |v|][0] == s[from];
      }
      FirstBelowSkip(v, s, from + 1, to, bound);
    }
  }

  /** The char[] branch of IndexOf as written: the window of candidate starts is two positions too short. */
  method IndexOfArrayAsWritten(s: seq<char>, value: seq<char>, start: nat) returns (r: int)
    requires |value| > 0 || |s| - start - |value| - 1 < 1
    ensures r == FirstOccurrenceBelow(value, s, start, |s| - |value| - 1)
    ensures r >= 0 ==> OccursAt(value, s, r)
  {
    r := SearchArray(s, value, start, -1);
  }

  /** The char[] branch of IndexOf with the window the string branch uses: the first occurrence. */
  method IndexOfArray(s: seq<char>, value: seq<char>, start: nat) returns (r: int)
    requires |value| > 0 || |s| - start - |value| + 1 < 1
    ensures r == FirstOccurrence(value, s, start)
  {
    r := SearchArray(s, value, start, 1);
    BelowIsFirst(value, s, start);
  }

  lemma {:induction false} BelowIsFirst(v: seq<char>, s: seq<char>, from: nat)
    ensures FirstOccurrenceBelow(v, s, from, |s| - |v| + 1) == FirstOccurrence(v, s, from)
    decreases |s| - from
  {
    if from + |v| <= |s| && s[from..from + |v|] != v {
      BelowIsFirst(v, s, from + 1);
    }
  }

  /** The as-written array search misses an occurrence at the end: "b" in "ab". */
  lemma IndexOfArrayMissesTail()
    ensures FirstOccurrenceBelow("b", "ab", 0, |"ab"| - |"b"| - 1) == -1
    ensures FirstOccurrence("b", "ab", 0) == 1
  {
    assert "ab"[0..1] == "a" && "ab"[1..2] == "b";
    assert FirstOccurrence("b", "ab", 1) == 1;
  }

  /**
   * `IndexOf(value, start)` on either kind: the string branch finds the
   * first occurrence at or after start (compared ordinally here); the array
   * branch is the corrected search. None where the source throws.
   */
  method IndexOf(chars: Chars, value: seq<char>, start: nat) returns (r: Option<int>)
    requires chars.Str? ==> start <= |chars.s|
    requires chars.Arr? ==> |value| > 0
    ensures r.Some? <==> !chars.OtherChars?
    ensures r.Some? ==> r.value == FirstOccurrence(value, Text(chars), start)
  {
    match chars {
      case Str(s) =>
        return Some(FirstOccurrence(value, s, start));
      case Arr(a) =>
        var i := IndexOfArray(a, value, start);
        return Some(i);
      case OtherChars =>
        return None;
    }
  }

  /** `IsDot`: exactly the one-character pattern ".". */
  function IsDot(s: seq<char>): (r: bool)
    ensures r <==> |s| == 1 && s[0] == '.'
  {
    s == ['.']
  }

  /** The length TrimRec leaves: trailing `\n` removed, but never the first character. */
  function TrimRecLen(t: seq<char>): (k: nat)
    ensures |t| == 0 ==> k == 0
    ensures |t| > 0 ==> 1 <= k <= |t| && (forall j :: k <= j < |t| ==> t[j] == '\n') && (k > 1 ==> t[k - 1] != '\n')
  {
    if |t| <= 1 then |t|
    else if t[|t| - 1] == '\n' then TrimRecLen(t[..|t| - 1])
    else |t|
  }

  /** TrimRec: drops trailing record separators from a builder in place. */
  method TrimRec(sb: Builder)
    modifies sb
    ensures sb.text == old(sb.text)[..TrimRecLen(old(sb.text))]
  {
    var t := sb.text;
    var i := |t|;
    i := i - 1;
    while i > 0 && t[i] == '\n'
      invariant -1 <= i < |t| && (|t| > 0 ==> i >= 0)
      invariant forall j :: i < j < |t| ==> t[j] == '\n'
      invariant i >= 0 ==> TrimRecLen(t) == TrimRecLen(t[..i + 1])
    {
      assert t[..i + 1][..i] == t[..i];
      i := i - 1;
    }
    i := i + 1;
    if i < |t| {
      sb.text := t[..i];
    }
    if |t| > 0 {
      assert TrimRecLen(t) == i by {
        assert TrimRecLen(t) == TrimRecLen(t[..i]);
        if i > 1 {
          assert t[..i][i - 1] == t[i - 1];
        }
      }
    }
  }
}
