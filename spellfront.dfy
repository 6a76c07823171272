/**
 * The front of the spelling checker (Hunspell.cs): the length and XML
 * gates of spell_internal, suggest_internal and analyze_internal, the
 * word cleaning of cleanword and cleanword2 (leading blanks and trailing
 * periods dropped, the capitalisation class computed), the acceptance of
 * numbers with single separators, the guard of spell against re-entering
 * a word already on the candidate stack, and the removal of duplicate
 * suggestions at the end of suggest.
 */
module SpellFront {
  import opened Base
  import opened Locale
  import opened IgnoreChars
  import opened ListUtils

  /** The word that asks for the XML interface of the simplified API. */
  const SPELL_XML: string := "<?xml?>"
  /** Words this long or longer are refused outright. */
  const MAXWORDLEN: nat := 100

  // ---------------------------------------------------------------------
  // The gates

  /** What an entry point does with a word before looking at it. */
  datatype Gate = Xml | Refuse | Pass

  /** spell_internal: the XML request word is accepted, a word of MAXWORDLEN or more is refused. */
  function SpellGate(word: string): Gate
  {
    if word == SPELL_XML then Xml else if |word| >= MAXWORDLEN then Refuse else Pass
  }

  /** suggest_internal: any word starting with "<?xml" goes to the XML interface; then the length gate. */
  function SuggestGate(word: string): Gate
  {
    if IsPrefix(SPELL_XML[..|SPELL_XML| - 2], word) then Xml else if |word| >= MAXWORDLEN then Refuse else Pass
  }

  /** analyze_internal: only the length gate. */
  function AnalyzeGate(word: string): Gate
  {
    if |word| >= MAXWORDLEN then Refuse else Pass
  }

  /** A word of MAXWORDLEN characters or more is refused by all three entry points, unless it is an XML request. */
  lemma LongWordsRefused(word: string)
    requires |word| >= MAXWORDLEN
    ensures AnalyzeGate(word) == Refuse
    ensures SpellGate(word) == Refuse
    ensures !IsPrefix("<?xml", word) ==> SuggestGate(word) == Refuse
  {
    assert SPELL_XML[..|SPELL_XML| - 2] == "<?xml";
  }

  // ---------------------------------------------------------------------
  // Cleaning: leading blanks and trailing periods

  /** The first position at or after i that does not hold a blank. */
  function FirstNonBlank(s: string, i: nat): (q: nat)
    requires i <= |s|
    ensures i <= q <= |s| && (q < |s| ==> s[q] != ' ')
    ensures forall k :: i <= k < q ==> s[k] == ' '
    decreases |s| - i
  {
    if i == |s| || s[i] != ' ' then i else FirstNonBlank(s, i + 1)
  }

  /** The length left of s[q..q+nl] once its trailing periods are dropped. */
  function Kept(s: string, q: nat, nl: nat): (k: nat)
    requires q + nl <= |s|
    ensures k <= nl && (k > 0 ==> s[q + k - 1] != '.')
    ensures forall j :: q + k <= j < q + nl ==> s[j] == '.'
  {
    if nl == 0 || s[q + nl - 1] != '.' then nl else Kept(s, q, nl - 1)
  }

  /** Where the cleaned word starts, how long it is, and how many periods were dropped. */
  function Trimmed(s: string): (nat, nat, nat)
  {
    var q := FirstNonBlank(s, 0);
    var nl := Kept(s, q, |s| - q);
    (q, nl, |s| - q - nl)
  }

  /** The cleaned word: no leading blanks and no trailing periods. */
  function Cleaned(s: string): string
  {
    var (q, nl, _) := Trimmed(s);
    s[q..q + nl]
  }

  /** A word is its leading blanks, the cleaned word and the trailing periods, the cleaned word starting with no blank and ending with no period. */
  lemma CleanedShape(s: string)
    ensures var (q, nl, dots) := Trimmed(s);
      s == Repeat(' ', q) + Cleaned(s) + Repeat('.', dots) &&
      (Cleaned(s) != [] ==> Cleaned(s)[0] != ' ' && Cleaned(s)[|Cleaned(s)| - 1] != '.')
  {
    var (q, nl, dots) := Trimmed(s);
    assert s[..q] == Repeat(' ', q);
    assert s[q + nl..] == Repeat('.', dots);
    assert s == s[..q] + s[q..q + nl] + s[q + nl..];
  }

  /** n copies of c. */
  function Repeat(c: char, n: nat): (r: string)
    ensures |r| == n && forall k :: 0 <= k < n ==> r[k] == c
  {
    if n == 0 then [] else Repeat(c, n - 1) + [c]
  }

  /** The two loops shared by cleanword and cleanword2: skip the blanks, then count off the periods. */
  method Trim(src: string) returns (q: nat, nl: nat, pabbrev: nat)
    ensures (q, nl, pabbrev) == Trimmed(src)
  {
    q, nl := 0, |src|;
    while nl > 0 && src[q] == ' '
      invariant q + nl == |src|
      invariant FirstNonBlank(src, q) == FirstNonBlank(src, 0)
    {
      q := q + 1;
      nl := nl - 1;
    }
    pabbrev := 0;
    while nl > 0 && src[q + nl - 1] == '.'
      invariant q + nl + pabbrev == |src|
      invariant Kept(src, q, nl) == Kept(src, q, |src| - q)
    {
      nl := nl - 1;
      pabbrev := pabbrev + 1;
    }
  }

  /** src after remove_ignored_chars. */
  function Ignored(ignore: Option<seq<char>>, src: string): string
  {
    if ignore.None? then src else Stripped(ignore.value, src)
  }

  /**
   * cleanword2: the IGNORE characters removed, then the word cleaned; its
   * class is get_captype's, and NOCAP when nothing is left.
   */
  method CleanWord2(src: string, ignore: Option<seq<char>>, ci: Casing) returns (w: string, cap: CapType, pabbrev: nat)
    ensures w == Cleaned(Ignored(ignore, src)) && pabbrev == Trimmed(Ignored(ignore, src)).2
    ensures cap == CapTypeOf(ci, w)
  {
    var s := RemoveIgnoredChars(src, ignore);
    var q, nl;
    q, nl, pabbrev := Trim(s);
    if nl == 0 {
      return [], NOCAP, pabbrev;
    }
    w := if nl < |s| then s[q..q + nl] else s;
    cap := GetCapType(w, ci);
  }

  // ---------------------------------------------------------------------
  // cleanword's own capitalisation count

  /** The number of positions k with lo <= k < hi whose character satisfies p (none when hi <= lo). */
  function CountIn(p: char -> bool, s: string, lo: nat, hi: nat): (n: nat)
    requires hi <= |s|
    ensures n <= hi
    decreases hi
  {
    if hi <= lo then 0 else CountIn(p, s, lo, hi - 1) + (if p(s[hi - 1]) then 1 else 0)
  }

  /** The class cleanword derives from the upper-case and case-neutral counts of a word of nl characters. */
  function CapFromCounts(ncap: nat, nneutral: nat, nl: nat, firstcap: bool): CapType
  {
    if ncap == 0 then NOCAP
    else if ncap == 1 && firstcap then INITCAP
    else if ncap == nl || ncap + nneutral == nl then ALLCAP
    else if ncap > 1 && firstcap then HUHINITCAP
    else HUHCAP
  }

  /** A character whose upper and lower forms agree. */
  function Neutral(ci: Casing): char -> bool
  {
    c => ci.toUpper(c) == ci.toLower(c)
  }

  /** cleanword's class as written: the counting loop runs over positions q..nl-1 of the source. */
  function CleanCapAsWritten(ci: Casing, src: string): CapType
  {
    var (q, nl, _) := Trimmed(src);
    if nl == 0 then NOCAP
    else CapFromCounts(CountIn(ci.isUpper, src, q, nl), CountIn(Neutral(ci), src, q, nl), nl, ci.isUpper(src[q]))
  }

  /** cleanword's class over the cleaned word itself, positions q..q+nl-1. */
  function CleanCap(ci: Casing, src: string): CapType
  {
    var (q, nl, _) := Trimmed(src);
    if nl == 0 then NOCAP
    else CapFromCounts(CountIn(ci.isUpper, src, q, q + nl), CountIn(Neutral(ci), src, q, q + nl), nl, ci.isUpper(src[q]))
  }

  /** The counting loop of cleanword over positions lo..hi-1. */
  method CountCaps(src: string, lo: nat, hi: nat, ci: Casing) returns (ncap: nat, nneutral: nat)
    requires hi <= |src|
    ensures ncap == CountIn(ci.isUpper, src, lo, hi) && nneutral == CountIn(Neutral(ci), src, lo, hi)
  {
    ncap, nneutral := 0, 0;
    var i := lo;
    while i < hi
      invariant lo <= i && (lo <= hi ==> i <= hi) && (i <= hi || ncap + nneutral == 0)
      invariant i <= hi ==> ncap == CountIn(ci.isUpper, src, lo, i) && nneutral == CountIn(Neutral(ci), src, lo, i)
    {
      if ci.isUpper(src[i]) {
        ncap := ncap + 1;
      }
      if ci.toUpper(src[i]) == ci.toLower(src[i]) {
        nneutral := nneutral + 1;
      }
      assert Neutral(ci)(src[i]) == (ci.toUpper(src[i]) == ci.toLower(src[i]));
      i := i + 1;
    }
    if hi < lo {
      assert CountIn(ci.isUpper, src, lo, hi) == 0 && CountIn(Neutral(ci), src, lo, hi) == 0;
    }
  }

  /** cleanword as written: its counting loop stops at nl, not at q + nl. */
  method CleanWordAsWritten(src: string, ci: Casing) returns (w: string, cap: CapType, pabbrev: nat)
    ensures w == Cleaned(src) && pabbrev == Trimmed(src).2
    ensures cap == CleanCapAsWritten(ci, src)
  {
    var q, nl;
    q, nl, pabbrev := Trim(src);
    if nl == 0 {
      return [], NOCAP, pabbrev;
    }
    var ncap, nneutral := CountCaps(src, q, nl, ci);
    cap := CapFromCounts(ncap, nneutral, nl, ci.isUpper(src[q]));
    w := if nl < |src| then src[q..q + nl] else src;
  }

  /** cleanword with its counting loop over the cleaned word. */
  method CleanWord(src: string, ci: Casing) returns (w: string, cap: CapType, pabbrev: nat)
    ensures w == Cleaned(src) && pabbrev == Trimmed(src).2
    ensures cap == CleanCap(ci, src)
  {
    var q, nl;
    q, nl, pabbrev := Trim(src);
    if nl == 0 {
      return [], NOCAP, pabbrev;
    }
    var ncap, nneutral := CountCaps(src, q, q + nl, ci);
    cap := CapFromCounts(ncap, nneutral, nl, ci.isUpper(src[q]));
    w := if nl < |src| then src[q..q + nl] else src;
  }

  /** Counting over a slice is counting over the slice's own positions. */
  lemma {:induction false} CountShift(p: char -> bool, s: string, q: nat, n: nat)
    requires q + n <= |s|
    ensures CountIn(p, s, q, q + n) == CountIn(p, s[q..q + n], 0, n)
    decreases n
  {
    if n > 0 {
      CountShift(p, s, q, n - 1);
      assert s[q..q + n][..n - 1] == s[q..q + n - 1];
      PrefixCount(p, s[q..q + n], n - 1);
    }
  }

  /** Counting below hi looks at no position past hi. */
  lemma {:induction false} PrefixCount(p: char -> bool, s: string, hi: nat)
    requires hi <= |s|
    ensures CountIn(p, s, 0, hi) == CountIn(p, s[..hi], 0, hi)
    decreases hi
  {
    if hi > 0 {
      assert s[..hi][..hi - 1] == s[..hi - 1];
      PrefixCount(p, s, hi - 1);
      PrefixCount(p, s[..hi], hi - 1);
    }
  }

  /** Every position up to hi satisfies p: all of them are counted. */
  lemma {:induction false} CountAll(p: char -> bool, s: string, hi: nat)
    requires hi <= |s| && forall k :: 0 <= k < hi ==> p(s[k])
    ensures CountIn(p, s, 0, hi) == hi
    decreases hi
  {
    if hi > 0 {
      CountAll(p, s, hi - 1);
    }
  }

  /** The corrected class of a cleaned word of upper-case letters only is INITCAP for one letter and ALLCAP for more. */
  lemma AllUpperClass(ci: Casing, src: string)
    requires Cleaned(src) != [] && forall k :: 0 <= k < |Cleaned(src)| ==> ci.isUpper(Cleaned(src)[k])
    ensures CleanCap(ci, src) == (if |Cleaned(src)| == 1 then INITCAP else ALLCAP)
  {
    var (q, nl, _) := Trimmed(src);
    CountShift(ci.isUpper, src, q, nl);
    CountAll(ci.isUpper, src[q..q + nl], nl);
    assert src[q..q + nl][0] == src[q];
  }

  /** A casing that maps the ASCII letters only. */
  function AsciiCasing(): Casing
  {
    Casing(c => 'A' <= c <= 'Z', c => 'a' <= c <= 'z',
           c => if 'a' <= c <= 'z' then (c as int - 32) as char else c,
           c => if 'A' <= c <= 'Z' then (c as int + 32) as char else c)
  }

  /** With a leading blank, cleanword as written misses the last letter of " AB" and calls it INITCAP. */
  lemma CleanCapMissesTail()
    ensures CleanCapAsWritten(AsciiCasing(), " AB") == INITCAP
    ensures CleanCap(AsciiCasing(), " AB") == ALLCAP
  {
    var ci := AsciiCasing();
    var s := " AB";
    assert FirstNonBlank(s, 0) == 1;
    assert Kept(s, 1, 2) == 2;
    assert Trimmed(s) == (1, 2, 0);
    assert CountIn(ci.isUpper, s, 1, 2) == 1;
    assert CountIn(Neutral(ci), s, 1, 2) == 0;
    assert CountIn(ci.isUpper, s, 1, 3) == 2;
  }

  // ---------------------------------------------------------------------
  // Numbers

  predicate Digit(c: char) { '0' <= c <= '9' }
  predicate Sep(c: char) { c == ',' || c == '.' || c == '-' }

  /** Digits with single separators between them: no separator first, last, or next to another. */
  predicate IsNumber(w: string)
  {
    |w| > 0 && Digit(w[0]) && Digit(w[|w| - 1]) &&
    (forall k :: 0 <= k < |w| ==> Digit(w[k]) || Sep(w[k])) &&
    (forall k :: 0 < k < |w| && Sep(w[k]) ==> Digit(w[k - 1]))
  }

  const NBEGIN: int := 0
  const NNUM: int := 1
  const NSEP: int := 2

  /** The scan state after the first i characters. */
  ghost predicate Scanned(w: string, i: nat, nstate: int)
    requires i <= |w|
  {
    (forall k :: 0 <= k < i ==> Digit(w[k]) || Sep(w[k])) &&
    (forall k :: 0 < k < i && Sep(w[k]) ==> Digit(w[k - 1])) &&
    (i > 0 ==> Digit(w[0])) &&
    nstate == (if i == 0 then NBEGIN else if Digit(w[i - 1]) then NNUM else NSEP)
  }

  /** The number scan of spell_internal: true iff the whole word is a number. */
  method NumberScan(w: string) returns (r: bool)
    ensures r <==> IsNumber(w)
  {
    var nstate := NBEGIN;
    var i := 0;
    while i < |w|
      invariant i <= |w| && Scanned(w, i, nstate)
    {
      if Digit(w[i]) {
        nstate := NNUM;
      } else if Sep(w[i]) {
        if nstate == NSEP || i == 0 {
          break;
        }
        nstate := NSEP;
      } else {
        break;
      }
      i := i + 1;
    }
    r := i == |w| && nstate == NNUM;
  }

  // ---------------------------------------------------------------------
  // The front of spell_internal

  /** Where spell_internal stands after its front: settled, or a cleaned word to look up. */
  datatype Front = Accept | Reject | Go(word: string, cap: CapType, abbv: nat)

  /** The front as a function of the input word, its input conversion and the IGNORE characters. */
  function FrontOf(word: string, iconv: string -> string, ignore: Option<seq<char>>, ci: Casing): Front
  {
    match SpellGate(word)
    case Xml => Accept
    case Refuse => Reject
    case Pass =>
      var s := Ignored(ignore, iconv(word));
      var w := Cleaned(s);
      if w == [] || IsNumber(w) then Accept else Go(w, CapTypeOf(ci, w), Trimmed(s).2)
  }

  /**
   * spell_internal up to the dictionary lookups: the gates, input
   * conversion (iconv, the identity without ICONV), cleaning, an empty
   * word accepted, numbers accepted.
   */
  method SpellFront(word: string, iconv: string -> string, ignore: Option<seq<char>>, ci: Casing) returns (f: Front)
    ensures f == FrontOf(word, iconv, ignore, ci)
  {
    if word == SPELL_XML {
      return Accept;
    }
    if |word| >= MAXWORDLEN {
      return Reject;
    }
    var w, cap, abbv := CleanWord2(iconv(word), ignore, ci);
    if |w| == 0 {
      return Accept;
    }
    var num := NumberScan(w);
    if num {
      return Accept;
    }
    return Go(w, cap, abbv);
  }

  /** A number with a separator is accepted only when no separator is doubled or at an end. */
  lemma NumberShape(w: string)
    requires IsNumber(w)
    ensures forall k :: 0 <= k < |w| - 1 ==> !(Sep(w[k]) && Sep(w[k + 1]))
  {
  }

  // ---------------------------------------------------------------------
  // spell: the candidate stack

  /** The words spell is currently inside, innermost last. */
  class CandidateStack {
    var items: seq<string>

    constructor ()
      ensures items == []
    {
      items := [];
    }
  }

  /**
   * spell(word, candidate_stack): refuses a word already on the stack;
   * otherwise runs spell_internal (inner, given the word and the stack it
   * sees) with the word pushed, and pops it again.
   */
  method Spell(word: string, stack: CandidateStack, inner: (string, seq<string>) -> bool) returns (r: bool)
    modifies stack
    ensures stack.items == old(stack.items)
    ensures word in old(stack.items) ==> !r
    ensures word !in old(stack.items) ==> r == inner(word, old(stack.items) + [word])
  {
    if word in stack.items {
      return false;
    }
    stack.items := stack.items + [word];
    r := inner(word, stack.items);
    stack.items := stack.items[..|stack.items| - 1];
  }

  // ---------------------------------------------------------------------
  // suggest: removing duplicate suggestions

  /**
   * The duplicate pass at the end of suggest: each suggestion is copied
   * down to slot l and kept unless an equal one is already below l; the
   * list is then cut to l.
   */
  method RemoveDuplicates(a: array<string>) returns (l: nat)
    modifies a
    ensures l <= a.Length && a[..l] == Uniq(old(a[..]))
  {
    ghost var s := a[..];
    l := 0;
    var j := 0;
    while j < a.Length
      invariant l <= j <= a.Length
      invariant a[..l] == Uniq(s[..j])
      invariant forall k :: j <= k < a.Length ==> a[k] == s[k]
    {
      var x := a[j];
      assert x == s[j] && s[..j + 1][..j] == s[..j];
      a[l] := x;
      assert a[..l] == Uniq(s[..j]);
      var k := IndexInPrefix(a, x, l);
      if k < 0 {
        assert a[..l + 1] == a[..l] + [x];
        l := l + 1;
      }
      j := j + 1;
    }
    assert s[..a.Length] == s;
  }
}
