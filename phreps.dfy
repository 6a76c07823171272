/**
 * The REP entries add_word (HashMgr.cs) derives from the `ph:` fields of a
 * morphological description: a field "ph:prity" on the word "pretty" makes
 * the misspelling "prity" suggest "pretty". A field may name its own
 * replacement ("ph:priti->pretti"), end in '*' to match also where the
 * word changes ("ph:prity*" gives "prit" -> "prett"), and on a capitalised
 * word a lower-case pattern is also entered capitalised.
 */
module PhReps {
  import opened Base
  import opened Locale
  import RepLists

  /** The field marking a pronunciation in a morphological description (MORPH.PHON). */
  const PHON: string := "ph:"

  /** The separator of a field's own replacement. */
  const ARROW: string := "->"

  /** hentry.Contains: the data string is present and holds p. */
  function DataContains(data: Option<string>, p: string): bool
  {
    data.Some? && FirstOccurrence(p, data.value, 0) != -1
  }

  type RepEntry = RepLists.RepEntry

  /** `new replentry(pattern, outstring)`: the outstring in the slot for inside a word, the other three absent. */
  function Rep(pattern: string, outstring: string): (r: RepEntry)
    ensures r.pattern == pattern && |r.outstrings| == 4 && r.outstrings[0] == outstring
  {
    RepLists.RepEntry(pattern, [outstring, "", "", ""])
  }

  /** The separators of `fields.Split(' ', '\t')`. */
  predicate Blank(c: char)
  {
    c == ' ' || c == '\t'
  }

  /** `text.Split(' ', '\t')`: the pieces between the blanks, empty ones included. */
  function SplitBlanks(t: string): (r: seq<string>)
    ensures |r| >= 1
    decreases |t|
  {
    var k := FirstIndex(Blank, t);
    if k < 0 then [t] else [t[..k]] + SplitBlanks(t[k + 1..])
  }

  /** A text without blanks is one piece. */
  lemma SplitSolid(t: string)
    requires forall i :: 0 <= i < |t| ==> !Blank(t[i])
    ensures SplitBlanks(t) == [t]
  {
    assert FirstIndex(Blank, t) < 0;
  }

  /** A blank-free piece followed by a blank is split off as the first piece. */
  lemma SplitFirst(a: string, sep: char, b: string)
    requires Blank(sep) && forall i :: 0 <= i < |a| ==> !Blank(a[i])
    ensures SplitBlanks(a + [sep] + b) == [a] + SplitBlanks(b)
  {
    var t := a + [sep] + b;
    var k := FirstIndex(Blank, t);
    assert t[|a|] == sep;
    assert k == |a|;
    assert t[..k] == a && t[k + 1..] == b;
  }

  /**
   * The "->" test: a separator after the first character and before the
   * last two gives the pattern before it and the replacement after it;
   * otherwise the whole value is the pattern and the dictionary word the
   * replacement.
   */
  function Arrow(ph: string, inWord: string): (r: (string, string))
    ensures |ph| > 0 ==> |r.0| > 0
    ensures r.0 == ph || |r.0| < |ph|
  {
    var s := FirstOccurrence(ARROW, ph, 0);
    if s > 0 && s < |ph| - 2 then (ph[..s], ph[s + 2..]) else (ph, inWord)
  }

  /**
   * The '*' rule: a pattern ending in '*' loses that character and the one
   * before it, and the replacement its last character, when the pattern has
   * more than 2 characters and the replacement more than 1.
   */
  function Star(ph: string, wordpart: string): (r: (string, string))
    requires |ph| > 0
    ensures |r.0| > 0
  {
    if ph[|ph| - 1] == '*' && |ph| > 2 && |wordpart| > 1
    then (ph[..|ph| - 2], wordpart[..|wordpart| - 1])
    else (ph, wordpart)
  }

  /** The pattern and replacement of one non-empty `ph:` value: the "->" test, then the '*' rule. */
  function FieldPattern(ph0: string, inWord: string): (r: (string, string))
    requires |ph0| > 0
    ensures |r.0| > 0
  {
    var (ph, wp) := Arrow(ph0, inWord);
    Star(ph, wp)
  }

  /**
   * The entries of a pattern and its replacement, in the order add_word
   * adds them: for an INITCAP word and a NOCAP pattern first the
   * lower-cased replacement (German and Hungarian only) and the
   * capitalised pattern, then always the pattern itself.
   */
  function PatternReps(ph: string, wp: string, captype: CapType, ci: Casing, deHu: bool): seq<RepEntry>
  {
    var capped := InitCapped(ci, ph);
    (if captype == INITCAP && CapTypeOf(ci, ph) == NOCAP && |capped| > 0
     then (if deHu then [Rep(ph, LowerCase(ci, wp))] else []) + [Rep(capped, wp)]
     else [])
    + [Rep(ph, wp)]
  }

  /** The entries of one non-empty `ph:` value. */
  function FieldReps(ph0: string, inWord: string, captype: CapType, ci: Casing, deHu: bool): seq<RepEntry>
    requires |ph0| > 0
  {
    var (ph, wp) := FieldPattern(ph0, inWord);
    PatternReps(ph, wp, captype, ci, deHu)
  }

  /** One piece of the description: a `ph:` field with a non-empty value adds its entries, any other piece none. */
  function PieceReps(piece: string, inWord: string, captype: CapType, ci: Casing, deHu: bool): seq<RepEntry>
  {
    if IsPrefix(PHON, piece) && |piece| > |PHON|
    then FieldReps(piece[|PHON|..], inWord, captype, ci, deHu)
    else []
  }

  /** The entries of the pieces, piece by piece. */
  function PiecesReps(pieces: seq<string>, inWord: string, captype: CapType, ci: Casing, deHu: bool): seq<RepEntry>
  {
    if pieces == [] then []
    else
      PiecesReps(pieces[..|pieces| - 1], inWord, captype, ci, deHu)
      + PieceReps(pieces[|pieces| - 1], inWord, captype, ci, deHu)
  }

  /** The entries add_word adds for the stored data: none unless it holds "ph:". */
  function DataReps(data: Option<string>, inWord: string, captype: CapType, ci: Casing, deHu: bool): seq<RepEntry>
  {
    if DataContains(data, PHON) then PiecesReps(SplitBlanks(data.value), inWord, captype, ci, deHu) else []
  }

  /** The entries of consecutive runs of pieces are those of the first run followed by those of the second. */
  lemma {:induction false} PiecesAppend(a: seq<string>, b: seq<string>, inWord: string, captype: CapType, ci: Casing, deHu: bool)
    ensures PiecesReps(a + b, inWord, captype, ci, deHu)
         == PiecesReps(a, inWord, captype, ci, deHu) + PiecesReps(b, inWord, captype, ci, deHu)
    decreases |b|
  {
    hide PieceReps;
    if b == [] {
      assert a + b == a;
    } else {
      var b' := b[..|b| - 1];
      var last := PieceReps(b[|b| - 1], inWord, captype, ci, deHu);
      assert (a + b)[..|a + b| - 1] == a + b';
      assert (a + b)[|a + b| - 1] == b[|b| - 1];
      assert PiecesReps(a + b, inWord, captype, ci, deHu) == PiecesReps(a + b', inWord, captype, ci, deHu) + last;
      PiecesAppend(a, b', inWord, captype, ci, deHu);
      assert PiecesReps(b, inWord, captype, ci, deHu) == PiecesReps(b', inWord, captype, ci, deHu) + last;
    }
  }

  /** Every entry the `ph:` fields add has a non-empty pattern. */
  lemma {:induction false} PatternsNonEmpty(pieces: seq<string>, inWord: string, captype: CapType, ci: Casing, deHu: bool)
    ensures forall e :: e in PiecesReps(pieces, inWord, captype, ci, deHu) ==> |e.pattern| > 0
    decreases |pieces|
  {
    if pieces != [] {
      PatternsNonEmpty(pieces[..|pieces| - 1], inWord, captype, ci, deHu);
    }
  }

  /** A value without "->" and without a final '*' suggests the dictionary word for itself (and its capitalised form on an INITCAP word). */
  lemma PlainField(p: string, inWord: string, captype: CapType, ci: Casing, deHu: bool)
    requires |p| > 0 && p[|p| - 1] != '*' && FirstOccurrence(ARROW, p, 0) == -1
    ensures captype != INITCAP ==> FieldReps(p, inWord, captype, ci, deHu) == [Rep(p, inWord)]
    ensures captype == INITCAP && CapTypeOf(ci, p) == NOCAP ==>
      FieldReps(p, inWord, captype, ci, deHu)
      == (if deHu then [Rep(p, LowerCase(ci, inWord))] else []) + [Rep(InitCapped(ci, p), inWord), Rep(p, inWord)]
  {
    PlainPattern(p, inWord);
    PatternCases(p, inWord, captype, ci, deHu);
    hide FieldPattern, PatternReps;
  }

  /** The entries of a pattern: the pattern alone, unless the word is INITCAP and the pattern NOCAP. */
  lemma PatternCases(ph: string, wp: string, captype: CapType, ci: Casing, deHu: bool)
    requires |ph| > 0
    ensures captype != INITCAP ==> PatternReps(ph, wp, captype, ci, deHu) == [Rep(ph, wp)]
    ensures captype == INITCAP && CapTypeOf(ci, ph) == NOCAP ==>
      PatternReps(ph, wp, captype, ci, deHu)
      == (if deHu then [Rep(ph, LowerCase(ci, wp))] else []) + [Rep(InitCapped(ci, ph), wp), Rep(ph, wp)]
  {
    hide CapTypeOf, LowerCase;
  }

  /** A value without "->" and without a final '*' is its own pattern, with the dictionary word as replacement. */
  lemma PlainPattern(p: string, inWord: string)
    requires |p| > 0 && p[|p| - 1] != '*' && FirstOccurrence(ARROW, p, 0) == -1
    ensures FieldPattern(p, inWord) == (p, inWord)
  {
    assert Arrow(p, inWord) == (p, inWord);
  }

  /** "ph:a->b" makes a suggest b, whatever the dictionary word, when a holds no "->" and does not end in '*'. */
  lemma ArrowField(a: string, b: string, inWord: string, captype: CapType, ci: Casing, deHu: bool)
    requires |a| > 0 && |b| > 0 && a[|a| - 1] != '*' && FirstOccurrence(ARROW, a, 0) == -1
    requires captype != INITCAP
    ensures FieldReps(a + ARROW + b, inWord, captype, ci, deHu) == [Rep(a, b)]
  {
    ArrowPattern(a, b, inWord);
    PatternCases(a, b, captype, ci, deHu);
    hide FieldPattern, PatternReps;
  }

  /** "a->b" has the pattern a and the replacement b, when a holds no "->" and does not end in '*'. */
  lemma ArrowPattern(a: string, b: string, inWord: string)
    requires |a| > 0 && |b| > 0 && a[|a| - 1] != '*' && FirstOccurrence(ARROW, a, 0) == -1
    ensures FieldPattern(a + ARROW + b, inWord) == (a, b)
  {
    var t := a + ARROW + b;
    ArrowAt(a, b);
    assert t[..|a|] == a && t[|a| + 2..] == b;
    assert Arrow(t, inWord) == (a, b);
  }

  /** The first "->" of a + "->" + b is the one after a, when a holds none. */
  lemma {:induction false} ArrowAt(a: string, b: string)
    requires FirstOccurrence(ARROW, a, 0) == -1
    ensures FirstOccurrence(ARROW, a + ARROW + b, 0) == |a|
  {
    var t := a + ARROW + b;
    assert OccursAt(ARROW, t, |a|) by {
      assert t[|a|..|a| + 2] == ARROW;
    }
    forall i | 0 <= i < |a|
      ensures !OccursAt(ARROW, t, i)
    {
      if i + 1 < |a| {
        assert t[i..i + 2] == a[i..i + 2];
        assert !OccursAt(ARROW, a, i);
      } else {
        assert t[i..i + 2][1] == t[|a|] == '-';
      }
    }
    FirstAt(ARROW, t, |a|);
  }

  /** An occurrence with none before it is the first. */
  lemma {:induction false} FirstAt(v: string, t: string, k: nat)
    requires OccursAt(v, t, k) && forall i :: 0 <= i < k ==> !OccursAt(v, t, i)
    ensures FirstOccurrence(v, t, 0) == k
  {
    var r := FirstOccurrence(v, t, 0);
    assert r != -1;
  }

  /** The example of add_word's comment: "ph:prity*" on "pretty" gives the entry "prit" -> "prett". */
  lemma StarExample(captype: CapType, ci: Casing, deHu: bool)
    requires captype != INITCAP
    ensures FieldReps("prity*", "pretty", captype, ci, deHu) == [Rep("prit", "prett")]
  {
    NoArrow("prity*");
    assert "prity*"[..4] == "prit" && "pretty"[..5] == "prett";
  }

  /** A description that is one `ph:` field adds exactly that field's entries. */
  lemma OneField(p: string, inWord: string, captype: CapType, ci: Casing, deHu: bool)
    requires |p| > 0 && forall i :: 0 <= i < |p| ==> !Blank(p[i])
    ensures DataReps(Some(PHON + p), inWord, captype, ci, deHu) == FieldReps(p, inWord, captype, ci, deHu)
  {
    var t := PHON + p;
    assert OccursAt(PHON, t, 0) by { assert t[0..3] == PHON; }
    assert FirstOccurrence(PHON, t, 0) == 0;
    SplitSolid(t);
    assert IsPrefix(PHON, t) && t[|PHON|..] == p;
    assert PiecesReps([t], inWord, captype, ci, deHu) == PiecesReps([], inWord, captype, ci, deHu) + PieceReps(t, inWord, captype, ci, deHu) by {
      assert [t][..0] == [];
    }
  }

  /** Two `ph:` fields separated by a space add the first field's entries, then the second's. */
  lemma TwoFields(p: string, q: string, inWord: string, captype: CapType, ci: Casing, deHu: bool)
    requires |p| > 0 && forall i :: 0 <= i < |p| ==> !Blank(p[i])
    requires |q| > 0 && forall i :: 0 <= i < |q| ==> !Blank(q[i])
    ensures DataReps(Some(PHON + p + " " + PHON + q), inWord, captype, ci, deHu)
         == FieldReps(p, inWord, captype, ci, deHu) + FieldReps(q, inWord, captype, ci, deHu)
  {
    hide FieldReps, SplitBlanks, FirstOccurrence;
    var a, b := PHON + p, PHON + q;
    var t := PHON + p + " " + PHON + q;
    assert t == a + [' '] + b;
    assert OccursAt(PHON, t, 0) by { assert t[0..3] == PHON; }
    assert forall i :: 0 <= i < |a| ==> !Blank(a[i]) by {
      forall i | 0 <= i < |a| ensures !Blank(a[i]) {
        if i >= 3 { assert a[i] == p[i - 3]; }
      }
    }
    assert forall i :: 0 <= i < |b| ==> !Blank(b[i]) by {
      forall i | 0 <= i < |b| ensures !Blank(b[i]) {
        if i >= 3 { assert b[i] == q[i - 3]; }
      }
    }
    SplitFirst(a, ' ', b);
    SplitSolid(b);
    assert SplitBlanks(t) == [a] + [b];
    PiecesAppend([a], [b], inWord, captype, ci, deHu);
    assert [a][..0] == [] && [b][..0] == [];
    assert IsPrefix(PHON, a) && a[|PHON|..] == p;
    assert IsPrefix(PHON, b) && b[|PHON|..] == q;
  }

  /** The example of add_word's comment: "ph:prity ph:priti->pretti" on "pretty" gives prity -> pretty and priti -> pretti. */
  lemma CommentExample(ci: Casing, deHu: bool)
    ensures DataReps(Some("ph:prity ph:priti->pretti"), "pretty", NOCAP, ci, deHu)
         == [Rep("prity", "pretty"), Rep("priti", "pretti")]
  {
    hide FieldReps, DataReps, FirstOccurrence, SplitBlanks;
    var p, a, b := "prity", "priti", "pretti";
    NoArrow(p);
    NoArrow(a);
    PlainField(p, "pretty", NOCAP, ci, deHu);
    ArrowField(a, b, "pretty", NOCAP, ci, deHu);
    assert a + ARROW + b == "priti->pretti";
    TwoFields(p, "priti->pretti", "pretty", NOCAP, ci, deHu);
    assert PHON + p + " " + PHON + "priti->pretti" == "ph:prity ph:priti->pretti";
  }

  /** A value without '-' holds no "->". */
  lemma NoArrow(p: string)
    requires forall i :: 0 <= i < |p| ==> p[i] != '-'
    ensures FirstOccurrence(ARROW, p, 0) == -1
  {
    forall i | 0 <= i
      ensures !OccursAt(ARROW, p, i)
    {
      if i + 2 <= |p| {
        assert p[i..i + 2][0] == p[i] != '-';
      }
    }
  }
}
