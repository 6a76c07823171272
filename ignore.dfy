/**
 * The IGNORE option (AffixMgr.cs remove_ignored_chars): the characters
 * listed in the option are dropped from dictionary words, affixes and the
 * words being checked.
 */
module IgnoreChars {
  import opened Base

  /** The characters of word that are not in ignore, in order. */
  function Stripped(ignore: seq<char>, word: seq<char>): seq<char>
  {
    Filter(c => c !in ignore, word)
  }

  /** String.IndexOfAny(chars, from): the first position at or after from holding one of chars, or -1. */
  function IndexOfAny(word: seq<char>, chars: seq<char>, from: nat): (r: int)
    ensures r == -1 || (from <= r < |word| && word[r] in chars)
    ensures forall i :: from <= i < |word| && (r == -1 || i < r) ==> word[i] !in chars
    decreases |word| - from
  {
    if from >= |word| then -1 else if word[from] in chars then from else IndexOfAny(word, chars, from + 1)
  }

  /** A piece without ignored characters is kept whole. */
  lemma {:induction false} StrippedClean(ignore: seq<char>, s: seq<char>)
    requires forall i :: 0 <= i < |s| ==> s[i] !in ignore
    ensures Stripped(ignore, s) == s
  {
    if s != [] {
      StrippedClean(ignore, s[1..]);
    }
  }

  /** Stripping a prefix one piece further: the clean piece word[j..i] is kept and the ignored word[i] dropped. */
  lemma StrippedStep(ignore: seq<char>, word: seq<char>, j: int, i: int)
    requires 0 <= j <= i < |word| && word[i] in ignore
    requires forall t :: j <= t < i ==> word[t] !in ignore
    ensures Stripped(ignore, word[..i + 1]) == Stripped(ignore, word[..j]) + word[j..i]
  {
    assert word[..i + 1] == word[..j] + (word[j..i] + [word[i]]);
    FilterAppend(c => c !in ignore, word[..j], word[j..i] + [word[i]]);
    FilterAppend(c => c !in ignore, word[j..i], [word[i]]);
    StrippedClean(ignore, word[j..i]);
  }

  /**
   * remove_ignored_chars: without an IGNORE option, or when the word holds
   * none of its characters, the word itself; otherwise the clean pieces
   * between ignored characters, appended one after another.
   */
  method RemoveIgnoredChars(word: string, ignorechars: Option<seq<char>>) returns (r: string)
    ensures r == (if ignorechars.None? then word else Stripped(ignorechars.value, word))
  {
    if ignorechars.None? {
      return word;
    }
    var ign := ignorechars.value;
    var i := IndexOfAny(word, ign, 0);
    if i < 0 {
      StrippedClean(ign, word);
      return word;
    }
    var sb: string := [];
    var j := 0;
    var more := true;
    while more
      invariant 0 <= j <= |word|
      invariant more ==> j <= i < |word| && word[i] in ign && forall t :: j <= t < i ==> word[t] !in ign
      invariant !more ==> forall t :: j <= t < |word| ==> word[t] !in ign
      invariant sb == Stripped(ign, word[..j])
      decreases |word| - j, more
    {
      StrippedStep(ign, word, j, i);
      if i > j {
        sb := sb + word[j..i];
      }
      j := i + 1;
      if j < |word| {
        i := IndexOfAny(word, ign, j);
        more := i >= 0;
      } else {
        more := false;
      }
    }
    assert word == word[..j] + word[j..];
    FilterAppend(c => c !in ign, word[..j], word[j..]);
    StrippedClean(ign, word[j..]);
    if j < |word| {
      sb := sb + word[j..];
    }
    r := sb;
  }

  /** Stripping twice is stripping once. */
  lemma StrippedIdempotent(ignore: seq<char>, word: seq<char>)
    ensures Stripped(ignore, Stripped(ignore, word)) == Stripped(ignore, word)
  {
    StrippedClean(ignore, Stripped(ignore, word));
  }

  /** Stripping distributes over concatenation. */
  lemma StrippedAppend(ignore: seq<char>, a: seq<char>, b: seq<char>)
    ensures Stripped(ignore, a + b) == Stripped(ignore, a) + Stripped(ignore, b)
  {
    FilterAppend(c => c !in ignore, a, b);
  }
}
