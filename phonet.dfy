/**
 * The PHONE table (phonetable.cs): pairs of a search pattern and its
 * replacement, stored as `\0`-terminated character arrays, an index from a
 * first letter to its first pattern, and phonet, the rule rewriter that
 * turns an upper-case word into its phonetic code for suggestions.
 *
 * A pattern is its letters, optionally a `(..)` group of alternative
 * letters, `-` marks (the last letters are context only), `<` (the
 * replacement is written back into the word and scanned again), a
 * priority digit, and `^` / `$` anchors. char.IsLetter and char.IsDigit
 * are a parameter (CharClass).
 */
module Phonet {
  import opened Base

  /** Words longer than this get the empty code. */
  const MAXPHONETLEN: nat := 256

  /** char.IsLetter and char.IsDigit of the runtime. */
  datatype CharClass = CharClass(isLetter: char -> bool, isDigit: char -> bool)

  /** '\0' is neither a letter nor a digit. */
  predicate ClassOk(cc: CharClass)
  {
    !cc.isLetter('\0') && !cc.isDigit('\0')
  }

  /** A rule as Add stores it: its characters and a closing '\0'. */
  predicate RuleOk(r: seq<char>)
  {
    |r| > 0 && r[|r| - 1] == '\0'
  }

  predicate TableOk(rules: seq<seq<char>>)
  {
    forall j :: 0 <= j < |rules| ==> RuleOk(rules[j])
  }

  /**
   * What init_hash builds: each first character of an even-indexed rule
   * maps to the smallest such index, and nothing else is mapped.
   */
  predicate HashFits(hash: map<char, int>, rules: seq<seq<char>>)
    requires TableOk(rules)
  {
    (forall c :: c in hash ==>
      0 <= hash[c] < |rules| && hash[c] % 2 == 0 && rules[hash[c]][0] == c &&
      forall j :: 0 <= j < hash[c] && j % 2 == 0 ==> rules[j][0] != c) &&
    (forall j :: 0 <= j < |rules| && j % 2 == 0 ==> rules[j][0] in hash)
  }

  /** The table ends with an empty pattern and an empty replacement, which stops every scan over the rules. */
  predicate Terminated(rules: seq<seq<char>>)
    requires TableOk(rules)
  {
    |rules| >= 2 && |rules| % 2 == 0 && rules[|rules| - 2][0] == '\0'
  }

  class PhoneTable {
    var rules: seq<seq<char>>
    var hash: map<char, int>

    predicate Valid()
      reads this
    {
      TableOk(rules)
    }

    /** The new table has no rules and an empty index. */
    constructor ()
      ensures Valid() && rules == [] && hash == map[]
    {
      rules := [];
      hash := map[];
    }

    function Count(): nat
      reads this
    {
      |rules|
    }

    /**
     * The empty final pair the C original's parser appends (two empty
     * rules, each a lone '\0'): it stops every scan over the rules.
     */
    method Terminate()
      requires Valid()
      modifies this
      ensures Valid() && rules == old(rules) + [['\0'], ['\0']] && hash == old(hash)
      ensures |old(rules)| % 2 == 0 ==> Terminated(rules)
    {
      Add("");
      Add("");
      assert "" + ['\0'] == ['\0'];
    }

    /** Add(rule): the rule's characters and a '\0' become the next entry. */
    method Add(rule: string)
      requires Valid()
      modifies this
      ensures Valid()
      ensures rules == old(rules) + [rule + ['\0']] && hash == old(hash)
      ensures Count() == old(Count()) + 1
    {
      rules := rules + [rule + ['\0']];
    }

    /** init_hash: index each first character of an even-indexed rule by its smallest index. */
    method InitHash()
      requires Valid()
      modifies this
      ensures Valid() && rules == old(rules)
      ensures HashFits(hash, rules)
    {
      var h: map<char, int> := map[];
      var i := 0;
      while i < |rules|
        invariant 0 <= i <= |rules| + 1 && i % 2 == 0
        invariant forall c :: c in h ==>
          0 <= h[c] < i && h[c] < |rules| && h[c] % 2 == 0 && rules[h[c]][0] == c &&
          forall j :: 0 <= j < h[c] && j % 2 == 0 ==> rules[j][0] != c
        invariant forall j :: 0 <= j < i && j < |rules| && j % 2 == 0 ==> rules[j][0] in h
      {
        var c := rules[i][0];
        if c !in h {
          h := h[c := i];
        }
        i := i + 2;
      }
      hash := h;
    }

    /**
     * phonet(inword): the phonetic code of the word, "" for words longer
     * than MAXPHONETLEN. Throws when a scan over the rules steps past the
     * table, which a table ending with an empty pair prevents; it does throw
     * when the rules for the first letter run to the end of the table and
     * none of them can fit.
     */
    method Phonet(inword: string, cc: CharClass) returns (r: Res<string>)
      requires Valid() && HashFits(hash, rules) && |rules| % 2 == 0 && ClassOk(cc)
      ensures |inword| > MAXPHONETLEN ==> r == Ok([])
      ensures Terminated(rules) ==> r.Ok?
      ensures 0 < |inword| <= MAXPHONETLEN && inword[0] != '\0' && RunsOff(rules, hash, inword[0], inword + ['\0'], 0, cc) ==> r == Throws
      ensures r.Ok? ==> |r.value| <= 2 * |inword|
      ensures r.Ok? && NoCarets(rules) ==> |r.value| <= |inword|
      ensures r.Ok? ==> Clean(r.value, Alphabet(inword, rules))
    {
      var len := |inword|;
      if len > MAXPHONETLEN {
        return Ok([]);
      }
      var word := new char[len + 1](j => if 0 <= j < len then inword[j] else '\0');
      ghost var A := Alphabet(inword, rules);
      assert word[..][len] == '\0';
      assert word[..] == inword + ['\0'];
      ghost var first := 0 < len && inword[0] != '\0' && RunsOff(rules, hash, inword[0], inword + ['\0'], 0, cc);
      ghost var L: nat := FirstNul(word[..], 0);
      AlphabetCovers(inword, rules);
      assert Within(word[..], A) by {
        forall j | 0 <= j < word.Length ensures word[j] == '\0' || word[j] in A {
          if j < len {
            assert word[j] == inword[j];
          }
        }
      }
      var cur := Cursor(0, 0, 0, -333, '\0', []);
      while word[cur.i] != '\0'
        invariant Term(word[..], L) && cur.i <= L && L <= len && word.Length == len + 1
        invariant cur.z == 0 || cur.z == 1
        invariant |cur.target| + L <= 2 * len
        invariant NoCarets(rules) ==> |cur.target| <= len
        invariant Within(word[..], A) && Clean(cur.target, A)
        invariant first ==> cur == Cursor(0, 0, 0, -333, '\0', []) && word[..] == inword + ['\0']
        decreases L - cur.i, 1 - cur.z
      {
        var c := word[cur.i];
        var ok, next, z0, L2 := AtLetter(word, rules, hash, cur.(c := c), len, L, cc, A);
        if !ok {
          return Throws;
        }
        L := L2;
        cur := next;
        if z0 == 0 {
          if cur.k != 0 && cur.p0 == 0 && |cur.target| < len && cur.c != '\0' {
            cur := cur.(target := cur.target + [cur.c]);
          }
          cur := cur.(i := cur.i + 1, z := 0, k := 0);
        }
      }
      return Ok(cur.target);
    }
  }

  /** The variables of phonet that carry over from one letter to the next. */
  datatype Cursor = Cursor(i: nat, z: int, k: nat, p0: int, c: char, target: seq<char>)

  /** Every character of the word and of every rule. */
  function Alphabet(inword: string, rules: seq<seq<char>>): set<char>
  {
    (set x | x in inword) + (set j, x | 0 <= j < |rules| && x in rules[j] :: x)
  }

  lemma AlphabetCovers(inword: string, rules: seq<seq<char>>)
    ensures forall j :: 0 <= j < |inword| ==> inword[j] in Alphabet(inword, rules)
    ensures forall n :: 0 <= n < |rules| ==> Within(rules[n], Alphabet(inword, rules))
  {
    forall n | 0 <= n < |rules| ensures Within(rules[n], Alphabet(inword, rules)) {
      forall j | 0 <= j < |rules[n]| ensures rules[n][j] in Alphabet(inword, rules) {
        var x := rules[n][j];
        assert x in rules[n];
      }
    }
  }

  /** Each character is '\0' or from A. */
  predicate Within(w: seq<char>, A: set<char>)
  {
    forall j :: 0 <= j < |w| ==> w[j] == '\0' || w[j] in A
  }

  /** The output: no '\0', every character from A. */
  predicate Clean(t: seq<char>, A: set<char>)
  {
    forall j :: 0 <= j < |t| ==> t[j] != '\0' && t[j] in A
  }

  /** The '\0'-terminated string in w is w[..L]. */
  predicate Term(w: seq<char>, L: nat)
  {
    L < |w| && w[L] == '\0' && forall j :: 0 <= j < L ==> w[j] != '\0'
  }

  /** e is the position of the first '\0' at or after from. */
  predicate NulAt(w: seq<char>, from: nat, e: nat)
  {
    from <= e < |w| && w[e] == '\0' && forall j :: from <= j < e ==> w[j] != '\0'
  }

  predicate HasNul(w: seq<char>, from: nat)
  {
    exists j :: from <= j < |w| && w[j] == '\0'
  }

  /** The first '\0' at or after from. */
  function FirstNul(w: seq<char>, from: nat): (r: nat)
    requires HasNul(w, from)
    ensures from <= r < |w| && w[r] == '\0' && forall j :: from <= j < r ==> w[j] != '\0'
    decreases |w| - from
  {
    if w[from] == '\0' then from else FirstNul(w, from + 1)
  }

  /**
   * n is o after strmove(dest, src) with the first '\0' from src at e: the
   * characters of [src, e) are copied to dest and followed by '\0'; the
   * other positions keep their characters.
   */
  predicate Moved(o: seq<char>, n: seq<char>, dest: nat, src: nat, e: nat)
  {
    |n| == |o| && dest <= src <= e < |o| &&
    forall j :: 0 <= j < |n| ==> n[j] == MovedAt(o, dest, src, e, j)
  }

  /** The character strmove leaves at position j. */
  function MovedAt(o: seq<char>, dest: nat, src: nat, e: nat, j: nat): char
    requires dest <= src <= e < |o| && j < |o|
  {
    if j < dest then o[j] else if j < dest + (e - src) then o[src + (j - dest)]
    else if j == dest + (e - src) then '\0' else o[j]
  }

  /** strmove(s, dest, src): the characters from src up to the first '\0' are moved down to dest. */
  method StrMove(s: array<char>, dest: nat, src: nat, ghost e: nat, ghost o: seq<char>) returns (ghost n: seq<char>)
    requires o == s[..] && dest <= src && NulAt(o, src, e)
    modifies s
    ensures n == s[..] && Moved(o, n, dest, src, e)
  {
    var d, q := dest, src;
    while s[q] != '\0'
      invariant src <= q <= e && d - dest == q - src
      invariant s.Length == |o| && e < |o|
      invariant forall j :: 0 <= j < dest ==> s[j] == o[j]
      invariant forall j :: dest <= j < d ==> s[j] == o[src + (j - dest)]
      invariant forall j :: d <= j < s.Length ==> s[j] == o[j]
      decreases e - q
    {
      assert s[q] == o[q];
      assert q < e;
      s[d] := s[q];
      d, q := d + 1, q + 1;
    }
    assert q == e by {
      assert s[q] == o[q];
    }
    s[d] := '\0';
    n := s[..];
  }

  /** strmove on a terminated word: the new string is the old one with [dest, src) cut out. */
  lemma StrMoveTerm(o: seq<char>, n: seq<char>, L: nat, dest: nat, src: nat, A: set<char>)
    requires Term(o, L) && src <= L && Moved(o, n, dest, src, L)
    ensures Term(n, dest + (L - src))
    ensures Within(o, A) ==> Within(n, A)
  {
    forall j | 0 <= j < dest + (L - src) ensures n[j] != '\0' {
      if j < dest {
        assert n[j] == o[j];
        assert j < L;
      } else {
        assert n[j] == o[src + (j - dest)];
        assert src + (j - dest) < L;
      }
    }
    if Within(o, A) {
      forall j | 0 <= j < |n| ensures n[j] == '\0' || n[j] in A {
        if j < dest || j > dest + (L - src) {
          assert n[j] == o[j];
        } else if j < dest + (L - src) {
          assert n[j] == o[src + (j - dest)];
        }
      }
    }
  }

  /** The special characters that end the literal part of a pattern. */
  const SPECIAL: seq<char> := "(-<^$"

  /**
   * How rules[n] matches the word at i (phonetable.cs:65-101): k letters
   * matched, s the first unread pattern position, p the priority, p0 the
   * pattern character after the letters, k0 the letters before any `-`.
   */
  method MatchHead(rule: seq<char>, w: seq<char>, i: nat, ghost L: nat, cc: CharClass)
    returns (k: nat, s: nat, p: int, p0: int, k0: nat)
    requires RuleOk(rule) && Term(w, L) && i < L && rule[0] == w[i] && ClassOk(cc)
    ensures 1 <= k <= k0 && i + k0 <= L && s < |rule|
    ensures Blocked(rule, w, i, cc) ==> s == 1
  {
    k, p, s := 1, 5, 1;
    while rule[s] != '\0' && w[i + k] == rule[s] && !cc.isDigit(rule[s]) && rule[s] !in SPECIAL
      invariant 1 <= s < |rule| && 1 <= k && i + k <= L
      invariant Blocked(rule, w, i, cc) ==> s == 1 && k == 1
      decreases |rule| - s
    {
      k, s := k + 1, s + 1;
    }
    if rule[s] == '(' {
      if cc.isLetter(w[i + k]) && w[i + k] in rule[s + 1..] {
        k := k + 1;
        while rule[s] != '\0' && rule[s] != ')'
          invariant s < |rule|
          decreases |rule| - s
        {
          s := s + 1;
        }
        if rule[s] == ')' {
          s := s + 1;
        }
      }
    }
    p0 := rule[s] as int;
    k0 := k;
    while rule[s] == '-' && k > 1
      invariant s < |rule| && 1 <= k <= k0
      invariant Blocked(rule, w, i, cc) ==> s == 1
      decreases |rule| - s
    {
      k, s := k - 1, s + 1;
    }
    if rule[s] == '<' {
      s := s + 1;
    }
    if cc.isDigit(rule[s]) {
      p := rule[s] as int - '0' as int;
      s := s + 1;
    }
    if rule[s] == '^' && rule[s + 1] == '^' {
      s := s + 1;
    }
  }

  /**
   * The rule cannot fit at i: its second character is a plain letter (no
   * digit, group, mark or anchor) other than the word's next one, so only
   * its first letter matches and no anchor follows.
   */
  predicate Blocked(rule: seq<char>, w: seq<char>, i: nat, cc: CharClass)
  {
    |rule| >= 2 && i + 1 < |w| && rule[1] != '\0' && !cc.isDigit(rule[1]) && rule[1] != w[i + 1] &&
    rule[1] != '(' && rule[1] != '-' && rule[1] != '<' && rule[1] != '^' && rule[1] != '$'
  }

  /** The rules for c run to the end of the table and none can fit at i: the scan for c steps past the table. */
  predicate RunsOff(rules: seq<seq<char>>, hash: map<char, int>, c: char, w: seq<char>, i: nat, cc: CharClass)
  {
    c in hash && 0 <= hash[c] < |rules| && |rules[hash[c]]| > 0 && rules[hash[c]][0] != '\0' &&
    forall n :: hash[c] <= n < |rules| && n % 2 == 0 ==> |rules[n]| > 0 && rules[n][0] == c && Blocked(rules[n], w, i, cc)
  }

  /** The anchors of a pattern hold at i (phonetable.cs:103-106). */
  predicate Fits(rule: seq<char>, s: nat, w: seq<char>, i: nat, k0: nat, cc: CharClass)
    requires RuleOk(rule) && s < |rule| && i + k0 < |w|
  {
    rule[s] == '\0' ||
    (rule[s] == '^' && (i == 0 || !cc.isLetter(w[i - 1])) && (rule[s + 1] != '$' || !cc.isLetter(w[i + k0]))) ||
    (rule[s] == '$' && i > 0 && cc.isLetter(w[i - 1]) && !cc.isLetter(w[i + k0]))
  }

  /**
   * How a follow-up rule matches the word after the first k letters at i
   * (phonetable.cs:119-153): k0 letters in all, s the first unread
   * pattern position, q0 the priority. Its `-` marks do not shorten k0.
   */
  method FollowMatch(rule: seq<char>, w: seq<char>, i: nat, k: nat, ghost L: nat, cc: CharClass)
    returns (k0: nat, s: nat, q0: int)
    requires RuleOk(rule) && |rule| > 1 && Term(w, L) && i + k <= L && ClassOk(cc)
    ensures k <= k0 && i + k0 <= L && s < |rule|
  {
    k0, s := k, 1;
    q0 := 5;
    while rule[s] != '\0' && w[i + k0] == rule[s] && !cc.isDigit(rule[s]) && rule[s] !in SPECIAL
      invariant 1 <= s < |rule| && k <= k0 && i + k0 <= L
      decreases |rule| - s
    {
      k0, s := k0 + 1, s + 1;
    }
    if rule[s] == '(' {
      if cc.isLetter(w[i + k0]) && w[i + k0] in rule[s + 1..] {
        k0 := k0 + 1;
        while rule[s] != ')' && rule[s] != '\0'
          invariant s < |rule|
          decreases |rule| - s
        {
          s := s + 1;
        }
        if rule[s] == ')' {
          s := s + 1;
        }
      }
    }
    while rule[s] == '-'
      invariant s < |rule|
      decreases |rule| - s
    {
      s := s + 1;
    }
    if rule[s] == '<' {
      s := s + 1;
    }
    if cc.isDigit(rule[s]) {
      q0 := rule[s] as int - '0' as int;
      s := s + 1;
    }
  }

  /**
   * A follow-up rule takes over when it ends at the word's end or at a
   * `$` before a non-letter, reaches past the first k letters, and has at
   * least priority p (phonetable.cs:155-175).
   */
  method FollowFits(rule: seq<char>, w: seq<char>, i: nat, k: nat, p: int, ghost L: nat, cc: CharClass)
    returns (fits: bool, q0: int)
    requires RuleOk(rule) && |rule| > 1 && Term(w, L) && i + k <= L && ClassOk(cc)
    ensures fits ==> q0 >= p
  {
    var k0, s;
    k0, s, q0 := FollowMatch(rule, w, i, k, L, cc);
    fits := (rule[s] == '\0' || (rule[s] == '$' && !cc.isLetter(w[i + k0]))) && k0 != k && q0 >= p;
  }

  /**
   * The follow-up test (phonetable.cs:110-183): after a pattern of several
   * letters without `-` fits, the rules for its last letter are tried on
   * the rest of the word; the first one that reaches further fits and has
   * at least priority p makes phonet skip the pattern. The result is the
   * skip decision and the priority variable it leaves.
   */
  method FollowUp(rules: seq<seq<char>>, hash: map<char, int>, w: seq<char>, i: nat, k: nat, p: int, p0: int, ghost L: nat, cc: CharClass)
    returns (r: Res<(bool, int)>)
    requires TableOk(rules) && HashFits(hash, rules) && Term(w, L) && 1 <= k && i + k <= L && ClassOk(cc)
    ensures Terminated(rules) ==> r.Ok?
    ensures !(k > 1 && w[i + k - 1] in hash && p0 != '-' as int && w[i + k] != '\0') ==> r == Ok((false, p0))
    ensures r.Ok? && r.value.0 ==> k > 1 && w[i + k] != '\0' && p0 != '-' as int
  {
    var c0 := w[i + k - 1];
    if !(k > 1 && c0 in hash && p0 != '-' as int && w[i + k] != '\0' && rules[hash[c0]][0] != '\0') {
      return Ok((false, p0));
    }
    var n0 := hash[c0];
    var q0 := p0;
    while true
      invariant 0 <= n0 && n0 % 2 == 0
      invariant Terminated(rules) ==> n0 <= |rules| - 2
      decreases |rules| - n0
    {
      if n0 >= |rules| {
        return Throws;
      }
      if rules[n0][0] != c0 {
        break;
      }
      var fits;
      fits, q0 := FollowFits(rules[n0], w, i, k, p, L, cc);
      if fits {
        break;
      }
      n0 := n0 + 2;
    }
    return Ok((q0 >= p && rules[n0][0] == c0, q0));
  }

  /** "^^" in a pattern (after its first letter): the rest of the word is scanned again from its start. */
  predicate Carets(rule: seq<char>)
  {
    exists j :: 1 <= j < |rule| - 1 && rule[j] == '^' && rule[j + 1] == '^'
  }

  /** No pattern holds "^^". */
  predicate NoCarets(rules: seq<seq<char>>)
  {
    forall n :: 0 <= n < |rules| ==> !Carets(rules[n])
  }

  /** The values Array.IndexOf(Array, object, int) compares: a boxed character or a string. */
  datatype Obj = Chr(ch: char) | Str(str: string)

  /**
   * Array.IndexOf(rules[n], "^^", 1) >= 0 as phonetable.cs:230 writes it:
   * the array holds characters and the value searched for is a string,
   * which equals none of them.
   */
  predicate CaretsAsWritten(rule: seq<char>)
  {
    exists j :: 1 <= j < |rule| && Chr(rule[j]) == Str("^^")
  }

  /** The written test never holds, so the "^^" branch is dead; the intended test does find "^^". */
  lemma CaretsMissed()
    ensures Carets("A^^\0") && !CaretsAsWritten("A^^\0")
    ensures forall rule :: !CaretsAsWritten(rule)
  {
    var rule := "A^^\0";
    assert rule[1] == '^' && rule[2] == '^';
  }

  /** The intended test: "^^" somewhere after the first character of the rule. */
  method FindCarets(rule: seq<char>) returns (b: bool)
    ensures b <==> Carets(rule)
  {
    var j := 1;
    while j + 1 < |rule|
      invariant 1 <= j
      invariant forall m :: 1 <= m < j && m + 1 < |rule| ==> !(rule[m] == '^' && rule[m + 1] == '^')
    {
      if rule[j] == '^' && rule[j + 1] == '^' {
        return true;
      }
      j := j + 1;
    }
    return false;
  }

  /**
   * The appending loop of plain replacement (phonetable.cs:219-226): every
   * replacement character before the last one is appended unless it
   * repeats the last output character, while the output is shorter than
   * len. The result is the output and the position of the last character.
   */
  function Condense(t: seq<char>, rep: seq<char>, s: nat, len: nat): (r: (seq<char>, nat))
    requires RuleOk(rep) && s < |rep|
    ensures s <= r.1 < |rep|
    decreases |rep| - s
  {
    if rep[s] != '\0' && rep[s + 1] != '\0' && |t| < len then
      Condense(if |t| == 0 || t[|t| - 1] != rep[s] then t + [rep[s]] else t, rep, s + 1, len)
    else (t, s)
  }

  /** No two neighbouring characters are equal. */
  predicate NoRepeats(t: seq<char>)
  {
    forall j :: 0 < j < |t| ==> t[j] != t[j - 1]
  }

  /**
   * The plain replacement only extends the output, never past
   * max(|t|, len), with replacement characters, and creates no repeated
   * neighbours.
   */
  lemma {:induction false} CondenseShape(t: seq<char>, rep: seq<char>, s: nat, len: nat, A: set<char>)
    requires RuleOk(rep) && s < |rep| && Within(rep, A) && Clean(t, A)
    ensures var u := Condense(t, rep, s, len).0;
      IsPrefix(t, u) && |u| <= (if |t| > len then |t| else len) && Clean(u, A) &&
      (NoRepeats(t) ==> NoRepeats(u))
    decreases |rep| - s
  {
    if rep[s] != '\0' && rep[s + 1] != '\0' && |t| < len {
      var t2 := if |t| == 0 || t[|t| - 1] != rep[s] then t + [rep[s]] else t;
      assert Clean(t2, A);
      CondenseShape(t2, rep, s + 1, len, A);
    }
  }

  /** n is o with its w characters from i replaced by the first w characters of rep. */
  predicate Overwritten(o: seq<char>, n: seq<char>, rep: seq<char>, i: nat, w: nat)
  {
    |n| == |o| && w <= |rep| &&
    forall j {:trigger n[j]} :: 0 <= j < |n| ==> n[j] == (if i <= j < i + w then rep[j - i] else o[j])
  }

  /**
   * The string n[..L2] is o's letters before i, the first w characters of
   * rep, and o's letters from i + w + d on: d letters of o were cut.
   */
  predicate Spliced(o: seq<char>, n: seq<char>, rep: seq<char>, i: nat, w: nat, d: nat, L2: nat)
  {
    L2 <= |n| && L2 + d <= |o| && w <= |rep| &&
    forall j {:trigger n[j]} :: 0 <= j < L2 ==>
      n[j] == (if j < i then o[j] else if j < i + w then rep[j - i] else o[j + d])
  }

  /**
   * The copy loop of `<` replacement (phonetable.cs:203-208): the
   * replacement is written over the word from i, until either of them
   * ends; w characters are written.
   */
  method Overwrite(word: array<char>, i: nat, rep: seq<char>, ghost L: nat, ghost A: set<char>) returns (w: nat)
    requires RuleOk(rep) && Term(word[..], L) && i <= L
    requires Within(rep, A) && Within(word[..], A)
    modifies word
    ensures i + w <= L && w < |rep| && (rep[w] == '\0' || i + w == L)
    ensures Overwritten(old(word[..]), word[..], rep, i, w)
    ensures Term(word[..], L) && Within(word[..], A)
  {
    ghost var o := word[..];
    w := 0;
    while rep[w] != '\0' && word[i + w] != '\0'
      invariant w < |rep| && i + w <= L
      invariant Overwritten(o, word[..], rep, i, w)
      invariant Term(word[..], L) && Within(word[..], A)
      decreases L - w
    {
      word[i + w] := rep[w];
      w := w + 1;
    }
  }

  /** Without strmove the overwritten word is spliced with nothing cut. */
  lemma NoCut(o: seq<char>, n: seq<char>, rep: seq<char>, i: nat, w: nat, L: nat)
    requires Overwritten(o, n, rep, i, w) && L <= |o|
    ensures Spliced(o, n, rep, i, w, 0, L)
  {
  }

  /** After the overwrite of w characters at i, strmove(i + w, i + k) leaves old letters from i + k on. */
  lemma CutAfter(o: seq<char>, m: seq<char>, n: seq<char>, rep: seq<char>, i: nat, w: nat, k: nat, L: nat)
    requires w < k && i + k <= L && Overwritten(o, m, rep, i, w)
    requires Moved(m, n, i + w, i + k, L)
    ensures Spliced(o, n, rep, i, w, k - w, L - (k - w))
  {
    forall j | 0 <= j < L - (k - w)
      ensures n[j] == (if j < i then o[j] else if j < i + w then rep[j - i] else o[j + (k - w)])
    {
      if j >= i + w {
        assert n[j] == m[j + (k - w)];
      } else {
        assert n[j] == m[j];
      }
    }
  }

  /** What Cut leaves: a terminated word, spliced, over the same characters. */
  lemma CutFacts(o: seq<char>, m: seq<char>, n: seq<char>, rep: seq<char>, i: nat, w: nat, k: nat, L: nat, A: set<char>)
    requires w < k && i + k <= L && Term(m, L) && Within(m, A) && Overwritten(o, m, rep, i, w)
    requires Moved(m, n, i + w, i + k, L)
    ensures Spliced(o, n, rep, i, w, k - w, L - (k - w)) && Term(n, L - (k - w)) && Within(n, A)
  {
    StrMoveTerm(m, n, L, i + w, i + k, A);
    CutAfter(o, m, n, rep, i, w, k, L);
  }

  /**
   * Replacement with `<` (phonetable.cs:192-213): the output loses its
   * last character when that repeats the letter or the replacement's
   * first character; the k matched letters at i are replaced in the word
   * by the first w characters of the replacement (all of it unless the
   * word ends first, in which case the letters after the match are
   * overwritten too), and the word is scanned again at i.
   */
  method LtReplace(word: array<char>, i: nat, k: nat, rep: seq<char>, c: char, target: seq<char>, ghost L: nat, ghost A: set<char>)
    returns (t: seq<char>, c2: char, ghost w: nat, ghost L2: nat)
    requires RuleOk(rep) && Term(word[..], L) && 1 <= k && i + k <= L
    requires Within(rep, A) && Within(word[..], A)
    modifies word
    ensures t == (if |target| > 0 && rep[0] != '\0' && (target[|target| - 1] == c || target[|target| - 1] == rep[0])
                  then target[..|target| - 1] else target)
    ensures i + w <= L && w < |rep| && (rep[w] == '\0' || i + w == L) && L2 == L - (if k > w then k - w else 0)
    ensures Spliced(old(word[..]), word[..], rep, i, w, if k > w then k - w else 0, L2)
    ensures Term(word[..], L2) && i <= L2 && c2 == word[i] && Within(word[..], A)
  {
    t := target;
    if |t| > 0 && rep[0] != '\0' && (t[|t| - 1] == c || t[|t| - 1] == rep[0]) {
      t := t[..|t| - 1];
    }
    w, L2 := Rewrite(word, i, k, rep, L, A);
    c2 := word[i];
  }

  /** The word part of `<` replacement: the overwrite, then strmove when fewer characters were written than matched. */
  method Rewrite(word: array<char>, i: nat, k: nat, rep: seq<char>, ghost L: nat, ghost A: set<char>) returns (w: nat, ghost L2: nat)
    requires RuleOk(rep) && Term(word[..], L) && 1 <= k && i + k <= L
    requires Within(rep, A) && Within(word[..], A)
    modifies word
    ensures i + w <= L && w < |rep| && (rep[w] == '\0' || i + w == L) && L2 == L - (if k > w then k - w else 0)
    ensures Spliced(old(word[..]), word[..], rep, i, w, if k > w then k - w else 0, L2)
    ensures Term(word[..], L2) && i <= L2 && Within(word[..], A)
  {
    ghost var o := word[..];
    w := Overwrite(word, i, rep, L, A);
    if k > w {
      L2 := Cut(word, i, w, k, rep, o, word[..], L, A);
    } else {
      L2 := L;
      NoCut(o, word[..], rep, i, w, L);
    }
  }

  /** strmove(word, i + w, i + k) after an overwrite of w < k characters (phonetable.cs:209-210). */
  method Cut(word: array<char>, i: nat, w: nat, k: nat, rep: seq<char>, ghost o: seq<char>, ghost m: seq<char>, ghost L: nat, ghost A: set<char>)
    returns (ghost L2: nat)
    requires m == word[..] && w < k && i + k <= L && Term(m, L) && Within(m, A) && Overwritten(o, m, rep, i, w)
    modifies word
    ensures L2 == L - (k - w) && Spliced(o, word[..], rep, i, w, k - w, L2)
    ensures Term(word[..], L2) && Within(word[..], A)
  {
    var n := StrMove(word, i + w, i + k, L, m);
    CutFacts(o, m, n, rep, i, w, k, L, A);
    L2 := L - (k - w);
  }

  /** The appending loop of phonetable.cs:219-226. */
  method Append(target: seq<char>, rep: seq<char>, len: nat) returns (t: seq<char>, s: nat)
    requires RuleOk(rep)
    ensures (t, s) == Condense(target, rep, 0, len)
  {
    s := 0;
    t := target;
    while rep[s] != '\0' && rep[s + 1] != '\0' && |t| < len
      invariant s < |rep|
      invariant Condense(t, rep, s, len) == Condense(target, rep, 0, len)
      decreases |rep| - s
    {
      if |t| == 0 || t[|t| - 1] != rep[s] {
        t := t + [rep[s]];
      }
      s := s + 1;
    }
  }

  /** strmove(word, 0, src) for "^^" (phonetable.cs:236): the rest of the word from src moves to its start. */
  method Restart(word: array<char>, src: nat, ghost L: nat, ghost A: set<char>) returns (ghost L2: nat)
    requires src <= L && Term(word[..], L) && Within(word[..], A)
    modifies word
    ensures L2 == L - src && Moved(old(word[..]), word[..], 0, src, L)
    ensures Term(word[..], L2) && Within(word[..], A)
  {
    ghost var m := word[..];
    var n := StrMove(word, 0, src, L, m);
    StrMoveTerm(m, n, L, 0, src, A);
    L2 := L - src;
  }

  /**
   * Replacement without `<` (phonetable.cs:216-239): i moves to the last
   * matched letter and the replacement goes to the output; with "^^" the
   * rest of the word is moved to its start and scanned again.
   */
  method PlainReplace(word: array<char>, i: nat, k: nat, rep: seq<char>, carets: bool, target: seq<char>, len: nat, ghost L: nat, ghost A: set<char>)
    returns (i2: nat, t: seq<char>, c: char, z0: int, ghost L2: nat)
    requires RuleOk(rep) && Term(word[..], L) && 1 <= k && i + k <= L && Within(word[..], A)
    modifies word
    ensures var (u, s) := Condense(target, rep, 0, len);
      c == rep[s] &&
      (!carets ==> i2 == i + k - 1 && t == u && z0 == 0 && L2 == L && word[..] == old(word[..])) &&
      (carets ==> i2 == 0 && z0 == 1 && t == u + (if c != '\0' then [c] else []) && L2 == L - (i + k) &&
                  Moved(old(word[..]), word[..], 0, i + k, L))
    ensures Term(word[..], L2) && Within(word[..], A)
  {
    i2 := i + k - 1;
    var s;
    t, s := Append(target, rep, len);
    c := rep[s];
    z0 := 0;
    L2 := L;
    if carets {
      if c != '\0' {
        t := t + [c];
      }
      L2 := Restart(word, i2 + 1, L, A);
      i2 := 0;
      z0 := 1;
    }
  }

  /** What trying one rule does. */
  datatype Outcome = Passed | Applied | Failed

  /**
   * Rule n for the current letter (phonetable.cs:63-243): Passed when it
   * does not fit or a follow-up rule takes over, Failed when a scan steps
   * past the table, Applied when its replacement is made.
   */
  method TryRule(word: array<char>, rules: seq<seq<char>>, hash: map<char, int>, n: nat, cur: Cursor, len: nat, ghost L: nat, cc: CharClass, ghost A: set<char>)
    returns (res: Outcome, next: Cursor, z0: int, ghost L2: nat)
    requires TableOk(rules) && HashFits(hash, rules) && |rules| % 2 == 0 && ClassOk(cc)
    requires n % 2 == 0 && n < |rules| && rules[n][0] == cur.c
    requires Term(word[..], L) && cur.i < L && cur.c == word[cur.i] && (cur.z == 0 || cur.z == 1)
    requires forall m :: 0 <= m < |rules| ==> Within(rules[m], A)
    requires Within(word[..], A) && Clean(cur.target, A)
    modifies word
    ensures Terminated(rules) ==> res != Failed
    ensures Blocked(rules[n], old(word[..]), cur.i, cc) ==> res == Passed
    ensures res == Passed ==> word[..] == old(word[..]) && next == cur.(k := next.k, p0 := next.p0)
    ensures res == Applied ==> Term(word[..], L2) && L2 <= L && next.i <= L2 && (next.z == 0 || next.z == 1)
    ensures res == Applied ==> Within(word[..], A) && Clean(next.target, A) && (next.c == '\0' || next.c in A)
    ensures res == Applied ==>
      (z0 == 0 && L2 == L && cur.i <= next.i < L && |next.target| <= (if |cur.target| > len then |cur.target| else len)) ||
      (z0 == 1 && cur.z == 0 && next.z == 1 && next.i == cur.i && |next.target| <= |cur.target|) ||
      (z0 == 1 && next.i == 0 && L2 + cur.i < L && |next.target| <= (if |cur.target| > len then |cur.target| else len) + 1 && !NoCarets(rules))
  {
    var c := cur.c;
    next, z0, L2 := cur, 0, L;
    var rule := rules[n];
    var k, s, p, p0, k0 := MatchHead(rule, word[..], cur.i, L, cc);
    next := next.(k := k, p0 := p0);
    if !Fits(rule, s, word[..], cur.i, k0, cc) {
      return Passed, next, z0, L2;
    }
    var f := FollowUp(rules, hash, word[..], cur.i, k, p, p0, L, cc);
    if f.Throws? {
      return Failed, next, z0, L2;
    }
    next := next.(p0 := f.value.1);
    if f.value.0 {
      return Passed, next, z0, L2;
    }
    next, z0, L2 := Replace(word, rules, n, k, next, len, L, A);
    return Applied, next, z0, L2;
  }

  /**
   * The replacement of rule n, which fits with k letters
   * (phonetable.cs:185-241): with `<` while z is 0 it goes back into the
   * word, otherwise into the output.
   */
  method Replace(word: array<char>, rules: seq<seq<char>>, n: nat, k: nat, cur: Cursor, len: nat, ghost L: nat, ghost A: set<char>)
    returns (next: Cursor, z0: int, ghost L2: nat)
    requires TableOk(rules) && |rules| % 2 == 0 && n % 2 == 0 && n < |rules|
    requires Term(word[..], L) && 1 <= k && cur.i + k <= L && (cur.z == 0 || cur.z == 1)
    requires forall m :: 0 <= m < |rules| ==> Within(rules[m], A)
    requires Within(word[..], A) && Clean(cur.target, A)
    modifies word
    ensures next.k == cur.k && next.p0 == (if '<' in rules[n][1..] then 1 else 0)
    ensures Term(word[..], L2) && L2 <= L && next.i <= L2 && (next.z == 0 || next.z == 1)
    ensures Within(word[..], A) && Clean(next.target, A) && (next.c == '\0' || next.c in A)
    ensures (z0 == 0 && L2 == L && cur.i <= next.i < L && |next.target| <= (if |cur.target| > len then |cur.target| else len)) ||
      (z0 == 1 && cur.z == 0 && next.z == 1 && next.i == cur.i && |next.target| <= |cur.target|) ||
      (z0 == 1 && next.i == 0 && L2 + cur.i < L && |next.target| <= (if |cur.target| > len then |cur.target| else len) + 1 && !NoCarets(rules))
  {
    var rep := rules[n + 1];
    var lt := if '<' in rules[n][1..] then 1 else 0;
    next := cur.(p0 := lt);
    if lt == 1 && cur.z == 0 {
      var t, c2, w, L3 := LtReplace(word, cur.i, k, rep, cur.c, cur.target, L, A);
      assert |t| <= |cur.target|;
      next := next.(z := 1, target := t, c := c2);
      z0, L2 := 1, L3;
    } else {
      var carets := FindCarets(rules[n]);
      var i2, t, c2, z1, L3 := PlainReplace(word, cur.i, k, rep, carets, cur.target, len, L, A);
      CondenseShape(cur.target, rep, 0, len, A);
      assert c2 == '\0' || c2 in A;
      next := next.(i := i2, z := 0, target := t, c := c2);
      z0, L2 := z1, L3;
    }
  }

  /**
   * One round of phonet's main loop before its bookkeeping
   * (phonetable.cs:58-245): the rules for the current letter are tried in
   * order, and the first that fits and is not skipped is applied. ok is
   * false when a scan steps past the table.
   */
  method AtLetter(word: array<char>, rules: seq<seq<char>>, hash: map<char, int>, cur: Cursor, len: nat, ghost L: nat, cc: CharClass, ghost A: set<char>)
    returns (ok: bool, next: Cursor, z0: int, ghost L2: nat)
    requires TableOk(rules) && HashFits(hash, rules) && |rules| % 2 == 0 && ClassOk(cc)
    requires Term(word[..], L) && cur.i < L && cur.c == word[cur.i] && (cur.z == 0 || cur.z == 1)
    requires forall n :: 0 <= n < |rules| ==> Within(rules[n], A)
    requires Within(word[..], A) && Clean(cur.target, A)
    modifies word
    ensures Terminated(rules) ==> ok
    ensures RunsOff(rules, hash, cur.c, old(word[..]), cur.i, cc) ==> !ok
    ensures ok ==> Term(word[..], L2) && L2 <= L && next.i <= L2 && (next.z == 0 || next.z == 1)
    ensures ok ==> Within(word[..], A) && Clean(next.target, A) && (next.c == '\0' || next.c in A)
    ensures ok ==>
      (z0 == 0 && L2 == L && cur.i <= next.i < L && |next.target| <= (if |cur.target| > len then |cur.target| else len)) ||
      (z0 == 1 && cur.z == 0 && next.z == 1 && next.i == cur.i && |next.target| <= |cur.target|) ||
      (z0 == 1 && next.i == 0 && L2 + cur.i < L && |next.target| <= (if |cur.target| > len then |cur.target| else len) + 1 && !NoCarets(rules))
  {
    var c := cur.c;
    ok, next, z0, L2 := true, cur, 0, L;
    if !(c in hash && rules[hash[c]][0] != '\0') {
      return;
    }
    var n := hash[c];
    while true
      invariant 0 <= n && n % 2 == 0
      invariant Terminated(rules) ==> n <= |rules| - 2
      invariant RunsOff(rules, hash, c, old(word[..]), cur.i, cc) ==> hash[c] <= n
      invariant next == cur.(k := next.k, p0 := next.p0) && z0 == 0 && L2 == L
      invariant word[..] == old(word[..])
      decreases |rules| - n
    {
      if n >= |rules| {
        return false, next, z0, L2;
      }
      if rules[n][0] != c {
        break;
      }
      var res, nx, z1, L3 := TryRule(word, rules, hash, n, cur.(k := next.k, p0 := next.p0), len, L, cc, A);
      if res == Failed {
        return false, next, z0, L2;
      }
      next := nx;
      if res == Applied {
        z0, L2 := z1, L3;
        return;
      }
      n := n + 2;
    }
  }

  /**
   * The table the PHONE parser builds ends with its last pair, not with an
   * empty one: with the single pair "AB" -> "X", phonet("AC") scans past
   * the rules for 'A' and throws.
   */
  method ParsedTableThrows(cc: CharClass) returns (r: Res<string>)
    requires ClassOk(cc) && !cc.isDigit('B')
    ensures r == Throws
  {
    var t := new PhoneTable();
    t.Add("AB");
    t.Add("X");
    t.InitHash();
    assert "AB" + ['\0'] == ['A', 'B', '\0'] && "X" + ['\0'] == ['X', '\0'];
    assert t.rules == [['A', 'B', '\0'], ['X', '\0']];
    assert 'A' in t.hash && t.hash['A'] == 0;
    assert Blocked(t.rules[0], "AC" + ['\0'], 0, cc);
    assert RunsOff(t.rules, t.hash, 'A', "AC" + ['\0'], 0, cc);
    r := t.Phonet("AC", cc);
  }

  /** With the empty final pair appended, the same table codes the same word. */
  method TerminatedTableCodes(cc: CharClass) returns (r: Res<string>)
    requires ClassOk(cc)
    ensures r.Ok?
  {
    var t := new PhoneTable();
    t.Add("AB");
    t.Add("X");
    t.Terminate();
    t.InitHash();
    r := t.Phonet("AC", cc);
  }
}
