/**
 * StringHelper.cs: per-thread pools of scratch character buffers and string
 * builders, and the small string operations that fill a pooled buffer
 * (reverseword, mkinitcap, mkinitsmall). Stacks are sequences with the top
 * at the end.
 */
module StrHelper {
  import opened Base
  import opened Locale

  const MinBufSize: int := 25
  const MaxCachedBufSize: int := 100
  const MaxBuffersCount: int := 100
  const MaxStringBuildersCount: int := 30

  function Max(a: int, b: int): int { if a < b then b else a }

  /** The top of the pool exists and holds at least size characters: PeekBuffer reuses it. */
  predicate TopFits(pool: seq<array<char>>, size: int)
  {
    |pool| > 0 && pool[|pool| - 1].Length >= size
  }

  /**
   * The pool after PeekBuffer(size) answered buf: a top that fits is
   * returned and kept; otherwise buf is a new buffer of max(size, 25)
   * characters that takes the top's place, or starts the pool, when size is
   * below 100, and the pool is left alone when it is not.
   */
  predicate Peeked(pool: seq<array<char>>, size: int, buf: array<char>, pool': seq<array<char>>)
  {
    if TopFits(pool, size) then buf == pool[|pool| - 1] && pool' == pool
    else
      buf.Length == Max(size, MinBufSize) &&
      pool' == if size < MaxCachedBufSize then (if |pool| == 0 then [] else pool[..|pool| - 1]) + [buf] else pool
  }

  /**
   * The reuse PeekBuffer exists for: after a peek of fewer than 100
   * characters the answer is on top of the pool, so a later PopBuffer of
   * the same size hands the same buffer back.
   */
  lemma PeekedOnTop(pool: seq<array<char>>, size: int, buf: array<char>, pool': seq<array<char>>)
    requires Peeked(pool, size, buf, pool') && size < MaxCachedBufSize
    ensures TopFits(pool', size) && pool'[|pool'| - 1] == buf
  {
  }

  /** A StringBuilder, seen through its current text. */
  class Builder {
    var text: seq<char>

    constructor ()
      ensures text == []
    {
      text := [];
    }
  }

  class StringHelper {
    var buffers: seq<array<char>>
    var builders: seq<Builder>

    /** The pools never grow past their caps, and only small buffers are cached. */
    ghost predicate Valid()
      reads this
    {
      |buffers| <= MaxBuffersCount &&
      (forall i :: 0 <= i < |buffers| ==> buffers[i].Length <= MaxCachedBufSize) &&
      |builders| <= MaxStringBuildersCount
    }

    constructor ()
      ensures Valid() && buffers == [] && builders == []
    {
      buffers := [];
      builders := [];
    }

    /**
     * PopBuffer: a fresh buffer when the pool is empty or the request is
     * large; otherwise the top buffer is taken off the pool and used when it
     * is long enough.
     */
    method PopBuffer(size: int) returns (buf: array<char>)
      requires Valid()
      modifies this
      ensures Valid() && builders == old(builders)
      ensures buf.Length >= size
      ensures |old(buffers)| == 0 || size > MaxCachedBufSize ==>
        buffers == old(buffers) && fresh(buf) && buf.Length == Max(size, MinBufSize)
      ensures |old(buffers)| > 0 && size <= MaxCachedBufSize ==>
        buffers == old(buffers)[..|old(buffers)| - 1] &&
        (if old(buffers)[|old(buffers)| - 1].Length < size then fresh(buf) && buf.Length == Max(size, MinBufSize)
         else buf == old(buffers)[|old(buffers)| - 1])
    {
      if |buffers| == 0 || size > MaxCachedBufSize {
        buf := new char[Max(size, MinBufSize)];
        return;
      }
      var top := buffers[|buffers| - 1];
      buffers := buffers[..|buffers| - 1];
      if top.Length < size {
        buf := new char[Max(size, MinBufSize)];
      } else {
        buf := top;
      }
    }

    /** PushBuffer: the buffer is cached only while the pool has room and the buffer is small. */
    method PushBuffer(buffer: array<char>)
      requires Valid()
      modifies this
      ensures Valid() && builders == old(builders)
      ensures buffers == if |old(buffers)| < MaxBuffersCount && buffer.Length <= MaxCachedBufSize
                         then old(buffers) + [buffer] else old(buffers)
    {
      if |buffers| < MaxBuffersCount && buffer.Length <= MaxCachedBufSize {
        buffers := buffers + [buffer];
      }
    }

    /**
     * PeekBuffer: the top buffer when it is long enough; otherwise a fresh
     * one, which replaces the top (or starts the pool) when it is small.
     */
    method PeekBuffer(size: int) returns (buf: array<char>)
      requires Valid()
      modifies this
      ensures Valid() && builders == old(builders)
      ensures buf.Length >= size
      ensures |buffers| == |old(buffers)| || (|old(buffers)| == 0 && buffers == [buf])
      ensures buf in old(buffers) || fresh(buf)
      ensures |old(buffers)| > 0 && old(buffers)[|old(buffers)| - 1].Length >= size ==>
        buffers == old(buffers) && buf == old(buffers)[|old(buffers)| - 1]
      ensures forall i :: 0 <= i < |buffers| ==> buffers[i] in old(buffers) || buffers[i] == buf
      ensures Peeked(old(buffers), size, buf, buffers)
      ensures !TopFits(old(buffers), size) ==> fresh(buf)
    {
      if |buffers| == 0 {
        buf := new char[Max(size, MinBufSize)];
        if size < MaxCachedBufSize {
          buffers := buffers + [buf];
        }
      } else if buffers[|buffers| - 1].Length < size {
        buf := new char[Max(size, MinBufSize)];
        if size < MaxCachedBufSize {
          buffers := buffers[..|buffers| - 1] + [buf];
        }
      } else {
        buf := buffers[|buffers| - 1];
      }
    }

    /** reverseword: the word read backward, built in a pooled buffer. */
    method ReverseWord(word: seq<char>) returns (r: seq<char>)
      requires Valid()
      modifies this, buffers
      ensures Valid() && builders == old(builders)
      ensures r == Reverse(word)
      ensures |word| < 2 ==> buffers == old(buffers)
      ensures |word| >= 2 ==>
        exists b :: Peeked(old(buffers), |word|, b, buffers) && (!TopFits(old(buffers), |word|) ==> fresh(b))
    {
      var n := |word|;
      if n < 2 {
        if n == 1 {
          assert Reverse(word) == Reverse(word[1..]) + [word[0]];
        }
        return word;
      }
      var buf := PeekBuffer(n);
      FillReversed(buf, word);
      r := buf[..n];
      assert Peeked(old(buffers), n, buf, buffers);
    }

    /** mkinitcap / mkinitsmall: the word with its first character mapped by `f`. */
    method MapFirst(s: seq<char>, f: char -> char) returns (r: seq<char>)
      requires Valid()
      modifies this, buffers
      ensures Valid() && builders == old(builders)
      ensures |r| == |s| && (|s| > 0 ==> r[1..] == s[1..])
      ensures |s| > 0 ==> r[0] == f(s[0])
      ensures |s| < 2 || f(s[0]) == s[0] ==> buffers == old(buffers)
      ensures |s| >= 2 && f(s[0]) != s[0] ==>
        exists b :: Peeked(old(buffers), |s|, b, buffers) && (!TopFits(old(buffers), |s|) ==> fresh(b))
    {
      var n := |s|;
      if n == 0 {
        return s;
      }
      var c := f(s[0]);
      if c == s[0] {
        return s;
      }
      if n == 1 {
        return [c];
      }
      var buf := PeekBuffer(n);
      buf[0] := c;
      var k := 1;
      while k < n
        invariant 1 <= k <= n
        invariant buf[0] == c
        invariant forall j :: 1 <= j < k ==> buf[j] == s[j]
        modifies buf
      {
        buf[k] := s[k];
        k := k + 1;
      }
      r := buf[..n];
      assert Peeked(old(buffers), n, buf, buffers);
    }

    /** mkinitcap: only the first character changes, to its upper-case form. */
    method MkInitCap(s: seq<char>, ci: Casing) returns (r: seq<char>)
      requires Valid()
      modifies this, buffers
      ensures Valid() && builders == old(builders)
      ensures |r| == |s| && (|s| > 0 ==> r[1..] == s[1..])
      ensures |s| > 0 ==> r[0] == ci.toUpper(s[0])
      ensures |s| < 2 || ci.toUpper(s[0]) == s[0] ==> buffers == old(buffers)
      ensures |s| >= 2 && ci.toUpper(s[0]) != s[0] ==>
        exists b :: Peeked(old(buffers), |s|, b, buffers) && (!TopFits(old(buffers), |s|) ==> fresh(b))
    {
      r := MapFirst(s, ci.toUpper);
    }

    /** mkinitsmall: only the first character changes, to its lower-case form. */
    method MkInitSmall(s: seq<char>, ci: Casing) returns (r: seq<char>)
      requires Valid()
      modifies this, buffers
      ensures Valid() && builders == old(builders)
      ensures |r| == |s| && (|s| > 0 ==> r[1..] == s[1..])
      ensures |s| > 0 ==> r[0] == ci.toLower(s[0])
      ensures |s| < 2 || ci.toLower(s[0]) == s[0] ==> buffers == old(buffers)
      ensures |s| >= 2 && ci.toLower(s[0]) != s[0] ==>
        exists b :: Peeked(old(buffers), |s|, b, buffers) && (!TopFits(old(buffers), |s|) ==> fresh(b))
    {
      r := MapFirst(s, ci.toLower);
    }

    /** PopStringBuilder: an empty builder, reused from the pool when one is cached. */
    method PopStringBuilder() returns (sb: Builder)
      requires Valid()
      modifies this, builders
      ensures Valid() && buffers == old(buffers)
      ensures sb.text == []
      ensures |old(builders)| == 0 ==> fresh(sb) && builders == []
      ensures |old(builders)| > 0 ==>
        sb == old(builders)[|old(builders)| - 1] && builders == old(builders)[..|old(builders)| - 1]
    {
      if |builders| == 0 {
        sb := new Builder();
        return;
      }
      sb := builders[|builders| - 1];
      builders := builders[..|builders| - 1];
      sb.text := [];
    }

    /** PushStringBuilder: cached only while fewer than MaxStringBuildersCount are pooled. */
    method PushStringBuilder(sb: Builder)
      requires Valid()
      modifies this
      ensures Valid() && buffers == old(buffers)
      ensures builders == if |old(builders)| < MaxStringBuildersCount then old(builders) + [sb] else old(builders)
    {
      if |builders| < MaxStringBuildersCount {
        builders := builders + [sb];
      }
    }

    /** ToStringPushStringBuilder: the builder's text, with the builder handed back to the pool. */
    method ToStringPushStringBuilder(sb: Builder) returns (s: seq<char>)
      requires Valid()
      modifies this
      ensures Valid() && buffers == old(buffers)
      ensures s == sb.text
      ensures builders == if |old(builders)| < MaxStringBuildersCount then old(builders) + [sb] else old(builders)
    {
      s := sb.text;
      PushStringBuilder(sb);
    }
  }

  /**
   * The array part of reverseword: the word is copied into the first |word|
   * cells of the buffer, which Array.Reverse then reverses in place.
   */
  method FillReversed(buf: array<char>, word: seq<char>)
    requires |word| <= buf.Length
    modifies buf
    ensures buf[..|word|] == Reverse(word)
  {
    var n := |word|;
    var k := 0;
    while k < n
      invariant 0 <= k <= n
      invariant forall j :: 0 <= j < k ==> buf[j] == word[j]
    {
      buf[k] := word[k];
      k := k + 1;
    }
    // Array.Reverse(buf, 0, n)
    var lo, hi := 0, n - 1;
    while lo < hi
      invariant 0 <= lo && hi == n - 1 - lo && lo <= n - lo
      invariant forall j :: 0 <= j < lo ==> buf[j] == word[n - 1 - j]
      invariant forall j :: n - lo <= j < n ==> buf[j] == word[n - 1 - j]
      invariant forall j :: lo <= j < n - lo ==> buf[j] == word[j]
    {
      buf[lo], buf[hi] := buf[hi], buf[lo];
      lo, hi := lo + 1, hi - 1;
    }
  }
}
