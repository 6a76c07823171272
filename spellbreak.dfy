/**
 * The break-point recursion at the end of spell_internal (Hunspell.cs):
 * a word the dictionary does not know is accepted when it splits at a
 * BREAK string into parts that spell accepts. Strings starting with `^`
 * or ending with `$` match only at the word's start or end; any other is
 * tried at its second occurrence and then at its first. The recursion is
 * cut off for words holding 10 or more break-string occurrences.
 *
 * The recursive spell calls are a parameter: spell restores its
 * candidate stack (SpellFront.Spell), so each call is a function of the
 * part it checks.
 */
module SpellBreak {
  import opened Base

  /** A word holding this many break-string occurrences or more is not broken up. */
  const MAXBREAKS: nat := 10

  /** BREAK strings as the affix file gives them: none is empty. */
  predicate TableOk(table: seq<string>)
  {
    forall k :: 0 <= k < |table| ==> |table[k]| > 0
  }

  /** The occurrences of j in w from pos on, counted left to right without overlap. */
  function Occurrences(w: string, j: string, pos: nat): nat
    requires |j| > 0 && pos <= |w|
    decreases |w| - pos
  {
    var p := FirstOccurrence(j, w, pos);
    if p < 0 then 0 else 1 + Occurrences(w, j, p + |j|)
  }

  /** The occurrences of the break strings table[..n] in w. */
  function BreakCount(w: string, table: seq<string>, n: nat): nat
    requires TableOk(table) && n <= |table|
  {
    if n == 0 then 0 else BreakCount(w, table, n - 1) + Occurrences(w, table[n - 1], 0)
  }

  /** A `^` string matches the start of the word and the rest spells, or a `$` string matches its end and the rest spells. */
  predicate Boundary(word: string, j: string, spell: string -> bool)
  {
    var plen, wl := |j|, |word|;
    !(plen <= 1 || plen > wl) &&
    ((j[0] == '^' && word[..plen - 1] == j[1..] && spell(word[plen - 1..])) ||
     (j[plen - 1] == '$' && word[wl - plen + 1..] == j[..plen - 1] && spell(word[..wl - plen + 1])))
  }

  /** j occurs at f strictly inside the word, and both sides spell. */
  predicate SplitsAt(word: string, j: string, f: int, spell: string -> bool)
  {
    0 < f && f + |j| < |word| && OccursAt(j, word, f) && spell(word[f + |j|..]) && spell(word[..f])
  }

  /** The first pass over the inner strings: the split at the second occurrence when that one is inside too, else at the first. */
  predicate SecondSplit(word: string, j: string, spell: string -> bool)
  {
    var found := FirstOccurrence(j, word, 0);
    0 < found < |word| - |j| &&
    var found2 := FirstOccurrence(j, word, found + 1);
    var f := if 0 < found2 < |word| - |j| then found2 else found;
    SplitsAt(word, j, f, spell)
  }

  /** The second pass over the inner strings: the split at the first occurrence. */
  predicate FirstSplit(word: string, j: string, spell: string -> bool)
  {
    var found := FirstOccurrence(j, word, 0);
    0 < found < |word| - |j| && SplitsAt(word, j, found, spell)
  }

  /** Some string of the table splits the word in one of the three passes. */
  predicate Splits(word: string, j: string, spell: string -> bool)
  {
    Boundary(word, j, spell) || SecondSplit(word, j, spell) || FirstSplit(word, j, spell)
  }

  /** The break recursion accepts: a table, no FORBIDDEN bit, fewer than MAXBREAKS occurrences, and some split. */
  predicate BreakAccepts(word: string, table: seq<string>, forbidden: bool, spell: string -> bool)
    requires TableOk(table)
  {
    |table| > 0 && !forbidden && BreakCount(word, table, |table|) < MAXBREAKS &&
    exists k :: 0 <= k < |table| && Splits(word, table[k], spell)
  }

  /** The inner counting loop: the occurrences of one break string, left to right. */
  method CountOne(word: string, j: string) returns (seen: nat)
    requires |j| > 0
    ensures seen == Occurrences(word, j, 0)
  {
    var pos := 0;
    seen := 0;
    while FirstOccurrence(j, word, pos) >= 0
      invariant pos <= |word|
      invariant seen + Occurrences(word, j, pos) == Occurrences(word, j, 0)
      decreases |word| - pos
    {
      pos := FirstOccurrence(j, word, pos) + |j|;
      seen := seen + 1;
    }
  }

  /** The counting loop: every occurrence of every break string. */
  method CountBreaks(word: string, table: seq<string>) returns (nbr: nat)
    requires TableOk(table)
    ensures nbr == BreakCount(word, table, |table|)
  {
    nbr := 0;
    for n := 0 to |table|
      invariant nbr == BreakCount(word, table, n)
    {
      var seen := CountOne(word, table[n]);
      nbr := nbr + seen;
    }
  }

  /** One pass: the first string of the table, in order, that the test accepts. */
  method BoundaryPass(word: string, table: seq<string>, spell: string -> bool) returns (r: bool)
    requires TableOk(table)
    ensures r <==> exists k :: 0 <= k < |table| && Boundary(word, table[k], spell)
  {
    for n := 0 to |table|
      invariant forall k :: 0 <= k < n ==> !Boundary(word, table[k], spell)
    {
      var j := table[n];
      var plen, wl := |j|, |word|;
      if plen == 1 || plen > wl {
        continue;
      }
      if j[0] == '^' && word[..plen - 1] == j[1..] && spell(word[plen - 1..]) {
        return true;
      }
      if j[plen - 1] == '$' && word[wl - plen + 1..] == j[..plen - 1] && spell(word[..wl - plen + 1]) {
        return true;
      }
    }
    return false;
  }

  /** One inner string at its second occurrence. */
  method SecondTry(word: string, j: string, spell: string -> bool) returns (ok: bool)
    ensures ok <==> SecondSplit(word, j, spell)
  {
    var plen, wl := |j|, |word|;
    var found := FirstOccurrence(j, word, 0);
    if !(0 < found && found < wl - plen) {
      return false;
    }
    var found2 := FirstOccurrence(j, word, found + 1);
    var f := found;
    if 0 < found2 && found2 < wl - plen {
      f := found2;
    }
    ok := SplitAt(word, j, f, spell);
  }

  /** Both sides of an occurrence at f strictly inside the word spell: the right side first, as the source tests it. */
  method SplitAt(word: string, j: string, f: int, spell: string -> bool) returns (ok: bool)
    requires 0 < f && f + |j| < |word| && OccursAt(j, word, f)
    ensures ok <==> SplitsAt(word, j, f, spell)
  {
    if !spell(word[f + |j|..]) {
      return false;
    }
    return spell(word[..f]);
  }

  /** One inner string at its first occurrence. */
  method FirstTry(word: string, j: string, spell: string -> bool) returns (ok: bool)
    ensures ok <==> FirstSplit(word, j, spell)
  {
    var plen, wl := |j|, |word|;
    var found := FirstOccurrence(j, word, 0);
    if !(0 < found && found < wl - plen) {
      return false;
    }
    ok := SplitAt(word, j, found, spell);
  }

  /** The pass at the second occurrence. */
  method SecondPass(word: string, table: seq<string>, spell: string -> bool) returns (r: bool)
    requires TableOk(table)
    ensures r <==> exists k :: 0 <= k < |table| && SecondSplit(word, table[k], spell)
  {
    for n := 0 to |table|
      invariant forall k :: 0 <= k < n ==> !SecondSplit(word, table[k], spell)
    {
      var ok := SecondTry(word, table[n], spell);
      if ok {
        return true;
      }
    }
    return false;
  }

  /** The pass at the first occurrence. */
  method FirstPass(word: string, table: seq<string>, spell: string -> bool) returns (r: bool)
    requires TableOk(table)
    ensures r <==> exists k :: 0 <= k < |table| && FirstSplit(word, table[k], spell)
  {
    for n := 0 to |table|
      invariant forall k :: 0 <= k < n ==> !FirstSplit(word, table[k], spell)
    {
      var ok := FirstTry(word, table[n], spell);
      if ok {
        return true;
      }
    }
    return false;
  }

  /**
   * The break recursion of spell_internal, entered when no reading was
   * found; true (with the COMPOUND bit set) when a split is accepted.
   */
  method BreakCheck(word: string, table: seq<string>, forbidden: bool, spell: string -> bool) returns (r: bool)
    requires TableOk(table)
    ensures r <==> BreakAccepts(word, table, forbidden, spell)
    ensures BreakCount(word, table, |table|) >= MAXBREAKS ==> !r
  {
    if |table| == 0 || forbidden {
      return false;
    }
    var nbr := CountBreaks(word, table);
    if nbr >= MAXBREAKS {
      return false;
    }
    r := BoundaryPass(word, table, spell);
    if r {
      return;
    }
    r := SecondPass(word, table, spell);
    if r {
      return;
    }
    r := FirstPass(word, table, spell);
  }

  /** A split at f: the word is the part before, the break string, and the part after. */
  lemma SplitsAtParts(word: string, j: string, f: int, spell: string -> bool)
    requires SplitsAt(word, j, f, spell)
    ensures exists a, b :: word == a + j + b && a != [] && b != [] && spell(a) && spell(b)
  {
    var a, b := word[..f], word[f + |j|..];
    assert word == a + word[f..f + |j|] + b;
  }

  /** An inner split puts the break string between two non-empty parts that both spell. */
  lemma InnerSplitParts(word: string, j: string, spell: string -> bool)
    requires SecondSplit(word, j, spell) || FirstSplit(word, j, spell)
    ensures exists a, b :: word == a + j + b && a != [] && b != [] && spell(a) && spell(b)
  {
    var found := FirstOccurrence(j, word, 0);
    if FirstSplit(word, j, spell) {
      SplitsAtParts(word, j, found, spell);
    } else {
      var found2 := FirstOccurrence(j, word, found + 1);
      var f := if 0 < found2 < |word| - |j| then found2 else found;
      SplitsAtParts(word, j, f, spell);
    }
  }

  /** A boundary split drops the marked string from the start or the end, and the rest spells. */
  lemma BoundaryParts(word: string, j: string, spell: string -> bool)
    requires Boundary(word, j, spell)
    ensures (j[0] == '^' && exists b :: word == j[1..] + b && spell(b)) ||
            (j[|j| - 1] == '$' && exists a :: word == a + j[..|j| - 1] && spell(a))
  {
    var plen, wl := |j|, |word|;
    if j[0] == '^' && word[..plen - 1] == j[1..] && spell(word[plen - 1..]) {
      assert word == j[1..] + word[plen - 1..];
    } else {
      assert word == word[..wl - plen + 1] + j[..plen - 1];
    }
  }
}
