/**
 * Preparing an affix condition as the affix file reader does
 * (AffixMgr.cs reverse_word_condition and redundant_condition). A suffix
 * condition is stored mirrored, so that SfxEntry.test_condition can read it
 * from the last character of the stem backward; a condition that the strip
 * string already satisfies is replaced by "." (no condition), and the stems
 * an entry tests all carry the strip string, so nothing is lost.
 */
module CondPrep {
  import opened Base
  import opened Conditions
  import opened Extensions

  // ---------------------------------------------------------------------
  // The text of atoms

  /** An atom as Parse produces it: a literal is no metacharacter and not `.`, a group lists no metacharacter. */
  predicate AtomOk(a: Atom)
  {
    match a
    case Lit(c) => !GroupMeta(c) && c != '.'
    case Any => true
    case Group(cs, _) => forall k :: 0 <= k < |cs| ==> !GroupMeta(cs[k])
  }

  predicate AtomsOk(A: seq<Atom>)
  {
    forall k :: 0 <= k < |A| ==> AtomOk(A[k])
  }

  /** No group metacharacter anywhere in s. */
  predicate NoMeta(s: seq<char>)
  {
    forall k :: 0 <= k < |s| ==> !GroupMeta(s[k])
  }

  /** The pattern text of one atom. */
  function RenderAtom(a: Atom): (r: seq<char>)
    ensures |r| >= 1
  {
    match a
    case Lit(c) => [c]
    case Any => ['.']
    case Group(cs, neg) => ['['] + (if neg then ['^'] else []) + cs + [']']
  }

  /** The pattern text of a list of atoms. */
  function Render(A: seq<Atom>): seq<char>
  {
    if A == [] then [] else RenderAtom(A[0]) + Render(A[1..])
  }

  lemma {:induction false} RenderAppend(A: seq<Atom>, B: seq<Atom>)
    ensures Render(A + B) == Render(A) + Render(B)
    decreases |A|
  {
    if A == [] {
      assert A + B == B;
    } else {
      assert (A + B)[1..] == A[1..] + B;
      RenderAppend(A[1..], B);
    }
  }

  /** Whether the group opening at c[p] is negated. */
  function GroupNeg(c: seq<char>, p: nat): bool
  {
    p + 1 < |c| && c[p + 1] == '^'
  }

  /** Where the characters of the group opening at c[p] start. */
  function GroupFrom(c: seq<char>, p: nat): nat
  {
    if GroupNeg(c, p) then p + 2 else p + 1
  }

  /** ParseFrom past a `[` whose list is c[q..e]. */
  function GroupThen(c: seq<char>, q: nat, e: nat, neg: bool): Option<seq<Atom>>
  {
    if e >= |c| || !PlainRun(c, q, e) then None
    else match ParseFrom(c, e + 1)
      case None => None
      case Some(rest) => Some([Group(c[q..e], neg)] + rest)
  }

  /** ParseFrom past a plain character ch. */
  function PlainThen(c: seq<char>, p: nat, ch: char): Option<seq<Atom>>
  {
    if ch == ']' || ch == '^' then None
    else match ParseFrom(c, p + 1)
      case None => None
      case Some(rest) => Some([if ch == '.' then Any else Lit(ch)] + rest)
  }

  lemma ParseGroupStep(c: seq<char>, p: nat)
    requires p < |c| && c[p] == '['
    ensures ParseFrom(c, p) == GroupThen(c, GroupFrom(c, p), SkipToClose(c, GroupFrom(c, p)), GroupNeg(c, p))
  {
  }

  lemma ParsePlainStep(c: seq<char>, p: nat)
    requires p < |c| && c[p] != '['
    ensures ParseFrom(c, p) == PlainThen(c, p, c[p])
  {
  }

  /** A well-formed pattern is the text of its atoms, and those atoms are as Parse makes them. */
  lemma {:induction false} RenderParse(c: seq<char>, p: nat)
    requires p <= |c| && ParseFrom(c, p).Some?
    ensures c[p..] == Render(ParseFrom(c, p).value) && AtomsOk(ParseFrom(c, p).value)
    decreases |c| - p, 1
  {
    hide ParseFrom;
    if p >= |c| {
      ParseEndStep(c, p);
    } else if c[p] == '[' {
      RenderParseGroup(c, p);
    } else {
      RenderParsePlain(c, p);
    }
  }

  lemma {:induction false} RenderParseGroup(c: seq<char>, p: nat)
    requires p < |c| && c[p] == '[' && ParseFrom(c, p).Some?
    ensures c[p..] == Render(ParseFrom(c, p).value) && AtomsOk(ParseFrom(c, p).value)
    decreases |c| - p, 0
  {
    hide ParseFrom, Render, AtomsOk, RenderAtom, SkipToClose;
    ParseGroupStep(c, p);
    var A := ParseFrom(c, p).value;
    var neg, q := GroupNeg(c, p), GroupFrom(c, p);
    var e := SkipToClose(c, q);
    assert e < |c| && PlainRun(c, q, e);
    var rest := ParseFrom(c, e + 1).value;
    assert A == [Group(c[q..e], neg)] + rest;
    RenderParse(c, e + 1);
    GroupText(c, p, q, e, neg);
    assert c[p..] == c[p..e + 1] + c[e + 1..];
    PrependAtom(Group(c[q..e], neg), rest);
  }

  /** Rendering and well-formedness of an atom list with one more atom in front. */
  lemma PrependAtom(a: Atom, A: seq<Atom>)
    ensures Render([a] + A) == RenderAtom(a) + Render(A)
    ensures AtomsOk([a] + A) <==> AtomOk(a) && AtomsOk(A)
  {
    assert ([a] + A)[1..] == A;
    assert AtomsOk(A) <== AtomsOk([a] + A) by {
      if AtomsOk([a] + A) {
        forall k | 0 <= k < |A| ensures AtomOk(A[k]) {
          assert A[k] == ([a] + A)[k + 1];
        }
      }
    }
  }

  /** The text from a `[` to its `]` is the text of the group atom. */
  lemma GroupText(c: seq<char>, p: nat, q: nat, e: nat, neg: bool)
    requires p < q <= e < |c| && c[p] == '[' && c[e] == ']'
    requires q == if neg then p + 2 else p + 1
    requires neg ==> c[p + 1] == '^'
    ensures c[p..e + 1] == RenderAtom(Group(c[q..e], neg))
  {
    if neg {
      assert c[p..e + 1] == [c[p]] + [c[p + 1]] + c[q..e] + [c[e]];
    } else {
      assert c[p..e + 1] == [c[p]] + c[q..e] + [c[e]];
    }
  }

  lemma {:induction false} RenderParsePlain(c: seq<char>, p: nat)
    requires p < |c| && c[p] != '[' && ParseFrom(c, p).Some?
    ensures c[p..] == Render(ParseFrom(c, p).value) && AtomsOk(ParseFrom(c, p).value)
    decreases |c| - p, 0
  {
    hide ParseFrom;
    ParsePlainStep(c, p);
    var A := ParseFrom(c, p).value;
    var rest := ParseFrom(c, p + 1).value;
    assert A == [if c[p] == '.' then Any else Lit(c[p])] + rest;
    RenderParse(c, p + 1);
    assert c[p..] == [c[p]] + c[p + 1..];
    PrependAtom(A[0], rest);
  }

  /** SkipToClose reads only what follows its start. */
  lemma {:induction false} SkipShift(X: seq<char>, c: seq<char>, q: nat)
    requires q <= |c|
    ensures SkipToClose(X + c, |X| + q) == |X| + SkipToClose(c, q)
    decreases |c| - q
  {
    if q < |c| {
      assert (X + c)[|X| + q] == c[q];
      if c[q] != ']' {
        SkipShift(X, c, q + 1);
      }
    }
  }

  lemma ParseEndStep(c: seq<char>, p: nat)
    requires p >= |c|
    ensures ParseFrom(c, p) == Some([])
  {
  }

  /** A group's list reads the same after text is put in front. */
  lemma ListShift(X: seq<char>, c: seq<char>, q: nat, e: nat)
    requires q <= e <= |c|
    ensures PlainRun(X + c, |X| + q, |X| + e) == PlainRun(c, q, e)
    ensures (X + c)[|X| + q..|X| + e] == c[q..e]
  {
    forall x | q <= x < e
      ensures (X + c)[|X| + x] == c[x]
    {
    }
  }

  /** Parsing reads only what follows its start. */
  lemma {:induction false} ParseShift(X: seq<char>, c: seq<char>, p: nat)
    requires p <= |c|
    ensures ParseFrom(X + c, |X| + p) == ParseFrom(c, p)
    decreases |c| - p, 1
  {
    hide ParseFrom;
    if p >= |c| {
      ParseEndStep(c, p);
      ParseEndStep(X + c, |X| + p);
    } else if c[p] == '[' {
      ParseShiftGroup(X, c, p);
    } else {
      assert (X + c)[|X| + p] == c[p];
      ParsePlainStep(c, p);
      ParsePlainStep(X + c, |X| + p);
      ParseShift(X, c, p + 1);
      PlainThenShift(X, c, p, c[p]);
    }
  }

  lemma {:induction false} ParseShiftGroup(X: seq<char>, c: seq<char>, p: nat)
    requires p < |c| && c[p] == '['
    ensures ParseFrom(X + c, |X| + p) == ParseFrom(c, p)
    decreases |c| - p, 0
  {
    hide ParseFrom, GroupThen;
    var xc := X + c;
    assert xc[|X| + p] == c[p];
    ParseGroupStep(c, p);
    ParseGroupStep(xc, |X| + p);
    if p + 1 < |c| {
      assert xc[|X| + p + 1] == c[p + 1];
    }
    var neg, q := GroupNeg(c, p), GroupFrom(c, p);
    assert GroupNeg(xc, |X| + p) == neg && GroupFrom(xc, |X| + p) == |X| + q;
    SkipShift(X, c, q);
    var e := SkipToClose(c, q);
    if e < |c| {
      ParseShift(X, c, e + 1);
    }
    GroupThenShift(X, c, q, e, neg);
  }

  lemma GroupThenShift(X: seq<char>, c: seq<char>, q: nat, e: nat, neg: bool)
    requires e < |c| ==> ParseFrom(X + c, |X| + e + 1) == ParseFrom(c, e + 1)
    ensures GroupThen(X + c, |X| + q, |X| + e, neg) == GroupThen(c, q, e, neg)
  {
    hide ParseFrom;
    if e < |c| && q <= e {
      ListShift(X, c, q, e);
    }
  }

  lemma PlainThenShift(X: seq<char>, c: seq<char>, p: nat, ch: char)
    requires ParseFrom(X + c, |X| + p + 1) == ParseFrom(c, p + 1)
    ensures PlainThen(X + c, |X| + p, ch) == PlainThen(c, p, ch)
  {
    hide ParseFrom;
  }

  /** Parsing the text of well-formed atoms gives them back. */
  lemma {:induction false} ParseOfRender(A: seq<Atom>)
    requires AtomsOk(A)
    ensures Parse(Render(A)) == Some(A)
    decreases |A|
  {
    hide ParseFrom;
    if A == [] {
      ParseEndStep([], 0);
    } else {
      var a := A[0];
      var ra := RenderAtom(a);
      var rest := Render(A[1..]);
      var c := ra + rest;
      assert Render(A) == c;
      assert AtomsOk(A[1..]) by {
        forall k | 0 <= k < |A[1..]| ensures AtomOk(A[1..][k]) {
          assert A[1..][k] == A[k + 1];
        }
      }
      ParseOfRender(A[1..]);
      ParseShift(ra, rest, 0);
      assert AtomOk(a);
      assert A == [a] + A[1..];
      match a
      case Lit(ch) =>
        assert c[0] == ch;
        ParsePlainStep(c, 0);
      case Any =>
        assert c[0] == '.';
        ParsePlainStep(c, 0);
      case Group(cs, neg) =>
        GroupParsed(cs, neg, rest);
        ParseGroupStep(c, 0);
    }
  }

  /** Parsing the text of a group atom, followed by anything, finds that group. */
  lemma GroupParsed(cs: seq<char>, neg: bool, rest: seq<char>)
    requires AtomOk(Group(cs, neg))
    ensures var ra := RenderAtom(Group(cs, neg));
      var c := ra + rest;
      c[0] == '[' && GroupNeg(c, 0) == neg && GroupFrom(c, 0) == (if neg then 2 else 1)
      && SkipToClose(c, GroupFrom(c, 0)) == |ra| - 1
      && PlainRun(c, GroupFrom(c, 0), |ra| - 1) && c[GroupFrom(c, 0)..|ra| - 1] == cs
  {
    var ra := RenderAtom(Group(cs, neg));
    assert NoMeta(cs);
    GroupLayout([], cs, neg, rest);
    assert [] + ra + rest == ra + rest;
    hide RenderAtom, SkipToClose;
    var c := ra + rest;
    var q := if neg then 2 else 1;
    var e := q + |cs|;
    ListPlain(c, q, cs);
    SkipEnds(c, q, e);
  }

  // ---------------------------------------------------------------------
  // The mirror of a condition

  /** A group lists its characters in the opposite order; other atoms stay. */
  function MirrorAtom(a: Atom): Atom
  {
    match a
    case Group(cs, neg) => Group(Reverse(cs), neg)
    case _ => a
  }

  /** The atoms in the opposite order, each group mirrored. */
  function Mirror(A: seq<Atom>): (r: seq<Atom>)
    ensures |r| == |A|
    ensures forall k :: 0 <= k < |A| ==> r[k] == MirrorAtom(A[|A| - 1 - k])
  {
    if A == [] then [] else Mirror(A[1..]) + [MirrorAtom(A[0])]
  }

  /** A mirrored group accepts the same characters. */
  lemma MirrorHolds(a: Atom, c: char)
    ensures Holds(MirrorAtom(a), c) == Holds(a, c)
  {
    if a.Group? {
      var cs := a.chars;
      if c in cs {
        var k :| 0 <= k < |cs| && cs[k] == c;
        assert Reverse(cs)[|cs| - 1 - k] == c;
      }
      if c in Reverse(cs) {
        var k :| 0 <= k < |cs| && Reverse(cs)[k] == c;
        assert cs[|cs| - 1 - k] == c;
      }
    }
  }

  lemma MirrorOk(A: seq<Atom>)
    requires AtomsOk(A)
    ensures AtomsOk(Mirror(A))
  {
    forall k | 0 <= k < |A| ensures AtomOk(Mirror(A)[k]) {
      assert AtomOk(A[|A| - 1 - k]);
    }
  }

  /** Mirroring twice gives the atoms back. */
  lemma MirrorMirror(A: seq<Atom>)
    ensures Mirror(Mirror(A)) == A
  {
    hide Reverse;
    var M := Mirror(A);
    forall k | 0 <= k < |A| ensures Mirror(M)[k] == A[k] {
      assert Mirror(M)[k] == MirrorAtom(M[|A| - 1 - k]);
      assert M[|A| - 1 - k] == MirrorAtom(A[k]);
      MirrorAtomTwice(A[k]);
    }
  }

  lemma MirrorAtomTwice(a: Atom)
    ensures MirrorAtom(MirrorAtom(a)) == a
  {
    if a.Group? {
      ReverseReverse(a.chars);
    }
  }

  lemma {:induction false} ReverseAppend(a: seq<char>, b: seq<char>)
    ensures Reverse(a + b) == Reverse(b) + Reverse(a)
  {
    var l, r := Reverse(a + b), Reverse(b) + Reverse(a);
    forall k | 0 <= k < |a| + |b| ensures l[k] == r[k] {
      if k < |b| {
        assert l[k] == (a + b)[|a| + |b| - 1 - k];
      } else {
        assert l[k] == (a + b)[|a| + |b| - 1 - k];
      }
    }
  }

  /**
   * The backward loop of reverse_word_condition over t (the pattern after
   * Array.Reverse) from index k down, neg telling that a `^` has been met
   * just before a `]`; None where the loop indexes past the array.
   */
  function RevLoop(t: seq<char>, k: int, neg: bool): (r: Option<seq<char>>)
    requires k < |t|
    ensures r.Some? ==> |r.value| == |t|
    decreases k + 1
  {
    if k < 0 then Some(t)
    else if t[k] == '[' then
      if !neg then RevLoop(t[k := ']'], k - 1, neg)
      else if k + 1 < |t| then RevLoop(t[k + 1 := '['], k - 1, neg)
      else None
    else if t[k] == ']' then
      if !neg then RevLoop(t[k := '['], k - 1, false)
      else if k + 1 < |t| then RevLoop(t[k := '['][k + 1 := '^'], k - 1, false)
      else None
    else if t[k] == '^' then
      if k + 1 >= |t| then None
      else if t[k + 1] == ']' then RevLoop(t, k - 1, true)
      else if neg then RevLoop(t[k + 1 := t[k]], k - 1, neg)
      else RevLoop(t, k - 1, neg)
    else if !neg then RevLoop(t, k - 1, neg)
    else if k + 1 < |t| then RevLoop(t[k + 1 := t[k]], k - 1, neg)
    else None
  }

  /** What reverse_word_condition leaves in the array holding c (None: it throws). */
  function RevCond(c: seq<char>): Option<seq<char>>
  {
    RevLoop(Reverse(c), |c| - 1, false)
  }

  // One step of the loop, each case on its own.

  lemma RevDone(t: seq<char>, k: int, neg: bool)
    requires k < 0
    ensures RevLoop(t, k, neg) == Some(t)
  {
  }

  lemma RevPlain(t: seq<char>, k: nat)
    requires k < |t| && !GroupMeta(t[k])
    ensures RevLoop(t, k, false) == RevLoop(t, k - 1, false)
  {
  }

  lemma RevPlainNeg(t: seq<char>, k: nat)
    requires k + 1 < |t| && !GroupMeta(t[k])
    ensures RevLoop(t, k, true) == RevLoop(t[k + 1 := t[k]], k - 1, true)
  {
  }

  lemma RevOpen(t: seq<char>, k: nat)
    requires k < |t| && t[k] == '['
    ensures RevLoop(t, k, false) == RevLoop(t[k := ']'], k - 1, false)
  {
  }

  lemma RevClose(t: seq<char>, k: nat)
    requires k < |t| && t[k] == ']'
    ensures RevLoop(t, k, false) == RevLoop(t[k := '['], k - 1, false)
  {
  }

  lemma RevCloseNeg(t: seq<char>, k: nat)
    requires k + 1 < |t| && t[k] == ']'
    ensures RevLoop(t, k, true) == RevLoop(t[k := '['][k + 1 := '^'], k - 1, false)
  {
  }

  lemma RevCaret(t: seq<char>, k: nat)
    requires k + 1 < |t| && t[k] == '^' && t[k + 1] == ']'
    ensures RevLoop(t, k, false) == RevLoop(t, k - 1, true)
  {
  }

  /** Outside a group the loop leaves plain characters alone. */
  lemma {:induction false} SkipPlain(t: seq<char>, lo: nat, j: int)
    requires lo - 1 <= j < |t|
    requires forall m :: lo <= m <= j ==> !GroupMeta(t[m])
    ensures RevLoop(t, j, false) == RevLoop(t, lo - 1, false)
    decreases j - lo + 1
  {
    hide RevLoop;
    if j >= lo {
      RevPlain(t, j);
      SkipPlain(t, lo, j - 1);
    }
  }

  /** Inside a negated group every plain character moves one place right, t[lo] staying behind. */
  lemma {:induction false} ShiftRun(t: seq<char>, lo: nat, j: int)
    requires lo - 1 <= j && j + 1 < |t|
    requires forall m :: lo <= m <= j ==> !GroupMeta(t[m])
    ensures RevLoop(t, j, true) == RevLoop(t[..lo] + [t[lo]] + t[lo..j + 1] + t[j + 2..], lo - 1, true)
    decreases j - lo + 1
  {
    hide RevLoop;
    if j < lo {
      assert t[..lo] + [t[lo]] + t[lo..j + 1] + t[j + 2..] == t[..lo] + t[lo..];
      assert t[..lo] + t[lo..] == t;
    } else {
      var u := t[j + 1 := t[j]];
      RevPlainNeg(t, j);
      ShiftRun(u, lo, j - 1);
      ShiftText(t, lo, j);
    }
  }

  lemma ShiftText(t: seq<char>, lo: nat, j: nat)
    requires lo <= j && j + 1 < |t|
    ensures var u := t[j + 1 := t[j]];
      u[..lo] + [u[lo]] + u[lo..j] + u[j + 1..] == t[..lo] + [t[lo]] + t[lo..j + 1] + t[j + 2..]
  {
    var u := t[j + 1 := t[j]];
    assert u[..lo] == t[..lo] && u[lo] == t[lo] && u[lo..j] == t[lo..j];
    assert u[j + 1..] == [t[j]] + t[j + 2..];
    assert t[lo..j + 1] == t[lo..j] + [t[j]];
  }

  /** What opens a group: `[`, or `[^` when it is negated. */
  function Opener(neg: bool): seq<char>
  {
    if neg then ['[', '^'] else ['[']
  }

  /** The reversed text of a group: `]`, the list backward, then the opener backward. */
  lemma ReversedGroup(cs: seq<char>, neg: bool)
    ensures RenderAtom(Group(cs, neg)) == Opener(neg) + cs + [']']
    ensures Reverse(RenderAtom(Group(cs, neg))) == [']'] + Reverse(cs) + Reverse(Opener(neg))
  {
    var h := Opener(neg);
    assert RenderAtom(Group(cs, neg)) == h + cs + [']'];
    assert Reverse([']']) == [']'];
    ReverseAppend(h + cs, [']']);
    ReverseAppend(h, cs);
    hide Reverse, RenderAtom, Opener;
    assert [']'] + (Reverse(cs) + Reverse(h)) == [']'] + Reverse(cs) + Reverse(h);
  }

  lemma OpenerBackward(neg: bool)
    ensures Reverse(Opener(neg)) == if neg then ['^', '['] else ['[']
  {
  }

  /** A literal or `.` passes through the loop unchanged. */
  lemma PlainStep(X: seq<char>, a: Atom, Y: seq<char>)
    requires (a.Lit? || a.Any?) && AtomOk(a)
    ensures RevLoop(X + Reverse(RenderAtom(a)) + Y, |X|, false) == RevLoop(X + RenderAtom(MirrorAtom(a)) + Y, |X| - 1, false)
  {
    hide RevLoop;
    assert Reverse(RenderAtom(a)) == RenderAtom(a);
    assert (X + RenderAtom(a) + Y)[|X|] == RenderAtom(a)[0];
    RevPlain(X + RenderAtom(a) + Y, |X|);
  }

  /** The list of a group, as it appears in the reversed text, holds no metacharacter. */
  lemma ListPlain(t: seq<char>, lo: nat, rc: seq<char>)
    requires lo + |rc| <= |t| && t[lo..lo + |rc|] == rc && NoMeta(rc)
    ensures forall m :: lo <= m <= lo + |rc| - 1 ==> !GroupMeta(t[m])
  {
    forall m | lo <= m <= lo + |rc| - 1 ensures !GroupMeta(t[m]) {
      assert t[m] == t[lo..lo + |rc|][m - lo];
    }
  }

  /** The loop over `]` + rc + `[` (rc plain) leaves `[` + rc + `]`. */
  lemma GroupCore(X: seq<char>, rc: seq<char>, Y: seq<char>)
    requires NoMeta(rc)
    ensures RevLoop(X + [']'] + rc + ['['] + Y, |X| + |rc| + 1, false)
         == RevLoop(X + ['['] + rc + [']'] + Y, |X| - 1, false)
  {
    hide RevLoop;
    var b, n := |X|, |rc|;
    var t := X + [']'] + rc + ['['] + Y;
    var t1 := X + [']'] + rc + [']'] + Y;
    var t2 := X + ['['] + rc + [']'] + Y;
    GroupTurns(X, rc, Y);
    RevOpen(t, b + n + 1);
    ListPlain(t1, b + 1, rc);
    SkipPlain(t1, b + 1, b + n);
    RevClose(t1, b);
  }

  lemma GroupTurns(X: seq<char>, rc: seq<char>, Y: seq<char>)
    ensures var b, n := |X|, |rc|;
      var t := X + [']'] + rc + ['['] + Y;
      var t1 := X + [']'] + rc + [']'] + Y;
      && t[b + n + 1] == '[' && t[b + n + 1 := ']'] == t1
      && t1[b + 1..b + 1 + n] == rc
      && t1[b] == ']' && t1[b := '['] == X + ['['] + rc + [']'] + Y
  {
  }

  /** The loop over `]` + rc + `^[` (rc plain) leaves `[^` + rc + `]`. */
  lemma NegGroupCore(X: seq<char>, rc: seq<char>, Y: seq<char>)
    requires NoMeta(rc)
    ensures RevLoop(X + [']'] + rc + ['^', '['] + Y, |X| + |rc| + 2, false)
         == RevLoop(X + ['[', '^'] + rc + [']'] + Y, |X| - 1, false)
  {
    hide RevLoop;
    var b, n := |X|, |rc|;
    var t := X + [']'] + rc + ['^', '['] + Y;
    var t1 := X + [']'] + rc + ['^', ']'] + Y;
    NegTurns(X, rc, Y);
    RevOpen(t, b + n + 2);
    RevCaret(t1, b + n + 1);
    ListPlain(t1, b + 1, rc);
    ShiftRun(t1, b + 1, b + n);
    var t3 := X + [']', t1[b + 1]] + rc + [']'] + Y;
    NegShifted(X, rc, Y);
    NegCloses(X, t1[b + 1], rc, Y);
    RevCloseNeg(t3, b);
  }

  lemma NegTurns(X: seq<char>, rc: seq<char>, Y: seq<char>)
    ensures var b, n := |X|, |rc|;
      var t := X + [']'] + rc + ['^', '['] + Y;
      var t1 := X + [']'] + rc + ['^', ']'] + Y;
      && t[b + n + 2] == '[' && t[b + n + 2 := ']'] == t1
      && t1[b + n + 1] == '^' && t1[b + n + 2] == ']'
      && t1[b + 1..b + 1 + n] == rc
  {
  }

  lemma NegCloses(X: seq<char>, x: char, rc: seq<char>, Y: seq<char>)
    ensures var t3 := X + [']', x] + rc + [']'] + Y;
      t3[|X|] == ']' && t3[|X| := '['][|X| + 1 := '^'] == X + ['[', '^'] + rc + [']'] + Y
  {
    var t3 := X + [']', x] + rc + [']'] + Y;
    var u := t3[|X| := '['][|X| + 1 := '^'];
    var v := X + ['[', '^'] + rc + [']'] + Y;
    assert |u| == |v|;
    forall k | 0 <= k < |u| ensures u[k] == v[k] {
    }
  }

  lemma NegShifted(X: seq<char>, rc: seq<char>, Y: seq<char>)
    ensures var b, n := |X|, |rc|;
      var t1 := X + [']'] + rc + ['^', ']'] + Y;
      t1[..b + 1] + [t1[b + 1]] + t1[b + 1..b + n + 1] + t1[b + n + 2..] == X + [']', t1[b + 1]] + rc + [']'] + Y
  {
    var b, n := |X|, |rc|;
    var t1 := X + [']'] + rc + ['^', ']'] + Y;
    assert t1[..b + 1] == X + [']'];
    assert t1[b + 1..b + n + 1] == rc;
    assert t1[b + n + 2..] == [']'] + Y;
  }

  /** The text around a group before the loop. */
  lemma GroupTextBefore(X: seq<char>, cs: seq<char>, neg: bool, Y: seq<char>)
    ensures |RenderAtom(Group(cs, neg))| == |Opener(neg)| + |cs| + 1
    ensures X + Reverse(RenderAtom(Group(cs, neg))) + Y == X + [']'] + Reverse(cs) + Reverse(Opener(neg)) + Y
  {
    ReversedGroup(cs, neg);
    hide Reverse, RenderAtom, Opener;
  }

  /** The text around a group after the loop. */
  lemma GroupTextAfter(X: seq<char>, cs: seq<char>, neg: bool, Y: seq<char>)
    ensures X + RenderAtom(MirrorAtom(Group(cs, neg))) + Y == X + Opener(neg) + Reverse(cs) + [']'] + Y
  {
    ReversedGroup(Reverse(cs), neg);
    hide Reverse, RenderAtom, Opener;
  }

  /** A group comes out of the loop with its brackets turned and its list in the opposite order. */
  lemma GroupStep(X: seq<char>, cs: seq<char>, neg: bool, Y: seq<char>)
    requires AtomOk(Group(cs, neg))
    ensures RevLoop(X + Reverse(RenderAtom(Group(cs, neg))) + Y, |X| + |RenderAtom(Group(cs, neg))| - 1, false)
         == RevLoop(X + RenderAtom(MirrorAtom(Group(cs, neg))) + Y, |X| - 1, false)
  {
    hide RevLoop;
    var rc := Reverse(cs);
    assert NoMeta(rc) by {
      forall m | 0 <= m < |rc| ensures !GroupMeta(rc[m]) {
        assert rc[m] == cs[|cs| - 1 - m];
      }
    }
    GroupTextBefore(X, cs, neg, Y);
    GroupTextAfter(X, cs, neg, Y);
    OpenerBackward(neg);
    hide Reverse, RenderAtom, MirrorAtom;
    if neg {
      NegGroupCore(X, rc, Y);
    } else {
      GroupCore(X, rc, Y);
    }
  }

  /** One atom: its reversed text, at the right end of what is left to scan, becomes the mirrored atom's text. */
  lemma AtomStep(X: seq<char>, a: Atom, Y: seq<char>)
    requires AtomOk(a)
    ensures RevLoop(X + Reverse(RenderAtom(a)) + Y, |X| + |RenderAtom(a)| - 1, false)
         == RevLoop(X + RenderAtom(MirrorAtom(a)) + Y, |X| - 1, false)
  {
    hide RevLoop, Reverse;
    match a
    case Lit(_) => PlainStep(X, a, Y);
    case Any => PlainStep(X, a, Y);
    case Group(cs, neg) => GroupStep(X, cs, neg, Y);
  }

  /** The loop over the reversed text of well-formed atoms leaves the text of their mirror. */
  lemma {:induction false} MirrorLoop(X: seq<char>, A: seq<Atom>, Y: seq<char>)
    requires AtomsOk(A)
    ensures RevLoop(X + Reverse(Render(A)) + Y, |X| + |Render(A)| - 1, false)
         == RevLoop(X + Render(Mirror(A)) + Y, |X| - 1, false)
    decreases |A|, 1
  {
    hide RevLoop;
    if A == [] {
      assert Reverse(Render(A)) == [] && Render(Mirror(A)) == [];
    } else {
      MirrorLoopCons(X, A, Y);
    }
  }

  lemma {:induction false} MirrorLoopCons(X: seq<char>, A: seq<Atom>, Y: seq<char>)
    requires AtomsOk(A) && A != []
    ensures RevLoop(X + Reverse(Render(A)) + Y, |X| + |Render(A)| - 1, false)
         == RevLoop(X + Render(Mirror(A)) + Y, |X| - 1, false)
    decreases |A|, 0
  {
    hide *;
    var a, B := A[0], A[1..];
    var ra, rb := RenderAtom(a), Render(B);
    var ma, rm := RenderAtom(MirrorAtom(a)), Render(Mirror(B));
    ConsFacts(A);
    AtomStep(X + Reverse(rb), a, Y);
    MirrorLoop(X, B, ma + Y);
    var Z := X + Reverse(rb);
    assert X + Reverse(Render(A)) + Y == Z + Reverse(ra) + Y;
    assert |X| + |Render(A)| - 1 == |Z| + |ra| - 1;
    assert Z + ma + Y == X + Reverse(rb) + (ma + Y);
    assert |Z| - 1 == |X| + |rb| - 1;
    assert X + rm + (ma + Y) == X + Render(Mirror(A)) + Y;
  }

  /** Splitting off the first atom, for the text, its reverse and the mirror. */
  lemma ConsFacts(A: seq<Atom>)
    requires AtomsOk(A) && A != []
    ensures AtomOk(A[0]) && AtomsOk(A[1..])
    ensures Reverse(Render(A)) == Reverse(Render(A[1..])) + Reverse(RenderAtom(A[0]))
    ensures Render(Mirror(A)) == Render(Mirror(A[1..])) + RenderAtom(MirrorAtom(A[0]))
    ensures |Render(A)| == |RenderAtom(A[0])| + |Render(A[1..])|
    ensures |Reverse(Render(A[1..]))| == |Render(A[1..])|
  {
    var a, B := A[0], A[1..];
    assert AtomsOk(B) by {
      forall k | 0 <= k < |B| ensures AtomOk(B[k]) {
        assert B[k] == A[k + 1];
      }
    }
    ReverseAppend(RenderAtom(a), Render(B));
    RenderAppend(Mirror(B), [MirrorAtom(a)]);
    assert Mirror(A) == Mirror(B) + [MirrorAtom(a)];
    assert Render([MirrorAtom(a)]) == RenderAtom(MirrorAtom(a));
  }

  /**
   * reverse_word_condition on a well-formed condition: the result is the
   * text of the mirrored atoms (the atoms in the opposite order, each
   * group's list reversed), itself well-formed and parsing to that mirror.
   */
  lemma RevCondMirrors(c: seq<char>)
    requires WellFormed(c)
    ensures RevCond(c).Some? && RevCond(c).value == Render(Mirror(Parse(c).value))
    ensures Parse(RevCond(c).value) == Some(Mirror(Parse(c).value))
  {
    hide ParseFrom, RevLoop, Render, Mirror, Reverse, RenderAtom, MirrorAtom, AtomsOk;
    var A := Parse(c).value;
    RenderParse(c, 0);
    assert c[0..] == c;
    MirrorLoop([], A, []);
    RevDone([] + Render(Mirror(A)) + [], -1, false);
    assert [] + Reverse(Render(A)) + [] == Reverse(c);
    assert [] + Render(Mirror(A)) + [] == Render(Mirror(A));
    MirrorOk(A);
    ParseOfRender(Mirror(A));
  }

  /** Applied twice, reverse_word_condition gives a well-formed condition back. */
  lemma RevCondTwice(c: seq<char>)
    requires WellFormed(c)
    ensures RevCond(c).Some? && RevCond(RevCond(c).value) == Some(c)
  {
    var A := Parse(c).value;
    RevCondMirrors(c);
    RevCondMirrors(RevCond(c).value);
    MirrorMirror(A);
    RenderParse(c, 0);
    assert c[0..] == c;
  }

  /**
   * The mirrored condition, read from the end of a stem as
   * SfxEntry.test_condition reads it, accepts exactly the stems whose last
   * characters match the condition as written, left to right.
   */
  lemma MirrorReadsForward(A: seq<Atom>, s: seq<char>)
    ensures SfxHolds(Mirror(A), s) <==> EndsIn(A, s)
  {
    if |s| >= |A| {
      forall k | 0 <= k < |A| ensures Holds(Mirror(A)[|A| - 1 - k], s[|s| - 1 - (|A| - 1 - k)]) == Holds(A[k], s[|s| - |A| + k]) {
        assert Mirror(A)[|A| - 1 - k] == MirrorAtom(A[k]);
        MirrorHolds(A[k], s[|s| - |A| + k]);
      }
      if SfxHolds(Mirror(A), s) {
        forall k | 0 <= k < |A| ensures Holds(A[k], s[|s| - |A| + k]) {
          assert Holds(Mirror(A)[|A| - 1 - k], s[|s| - 1 - (|A| - 1 - k)]);
        }
      }
      if EndsIn(A, s) {
        forall k | 0 <= k < |A| ensures Holds(Mirror(A)[k], s[|s| - 1 - k]) {
          assert Holds(A[|A| - 1 - k], s[|s| - |A| + (|A| - 1 - k)]);
        }
      }
    }
  }

  /** Array.Reverse. */
  method ReverseInPlace(s: array<char>)
    modifies s
    ensures s[..] == Reverse(old(s[..]))
  {
    ghost var o := s[..];
    var i, j := 0, s.Length - 1;
    while i < j
      invariant 0 <= i && j == s.Length - 1 - i && i <= j + 2
      invariant forall m :: 0 <= m < i ==> s[m] == o[|o| - 1 - m] && s[|o| - 1 - m] == o[m]
      invariant forall m :: i <= m <= j ==> s[m] == o[m]
      decreases j - i
    {
      s[i], s[j] := s[j], s[i];
      i, j := i + 1, j - 1;
    }
    assert s[..] == Reverse(o);
  }

  /**
   * reverse_word_condition(s): thrown when the loop indexes past the array
   * (a pattern starting with `^`); otherwise the array holds RevCond of
   * its old contents, the mirror of a well-formed condition.
   */
  method ReverseWordCondition(s: array<char>) returns (thrown: bool)
    modifies s
    ensures thrown <==> RevCond(old(s[..])).None?
    ensures !thrown ==> s[..] == RevCond(old(s[..])).value
    ensures !thrown && WellFormed(old(s[..])) ==> Parse(s[..]) == Some(Mirror(Parse(old(s[..])).value))
  {
    ghost var c := s[..];
    if s.Length == 0 {
      return false;
    }
    ReverseInPlace(s);
    var neg := false;
    var k := s.Length - 1;
    while k >= 0
      invariant -1 <= k < s.Length
      invariant RevLoop(s[..], k, neg) == RevCond(c)
      decreases k + 1
    {
      if s[k] == '[' {
        if neg {
          if k + 1 >= s.Length {
            return true;
          }
          s[k + 1] := '[';
        } else {
          s[k] := ']';
        }
      } else if s[k] == ']' {
        s[k] := '[';
        if neg {
          if k + 1 >= s.Length {
            return true;
          }
          s[k + 1] := '^';
        }
        neg := false;
      } else if s[k] == '^' {
        if k + 1 >= s.Length {
          return true;
        }
        if s[k + 1] == ']' {
          neg := true;
        } else if neg {
          s[k + 1] := s[k];
        }
      } else if neg {
        if k + 1 >= s.Length {
          return true;
        }
        s[k + 1] := s[k];
      }
      k := k - 1;
    }
    if WellFormed(c) {
      RevCondMirrors(c);
    }
    return false;
  }

  // ---------------------------------------------------------------------
  // Redundant conditions

  /** The atoms accept the last characters of s, one each, left to right. */
  ghost predicate EndsIn(A: seq<Atom>, s: seq<char>)
  {
    |s| >= |A| && forall k :: 0 <= k < |A| ==> Holds(A[k], s[|s| - |A| + k])
  }

  /** The warnings redundant_condition reports (HUNSPELL_WARNING without the error bit: a message only). */
  datatype Warn = Incompatible | Incomplete

  /** The answer of redundant_condition and the warning it reported on the way. */
  datatype Verdict = Verdict(redundant: bool, warning: Option<Warn>)

  /** Where the do-while over a prefix group stops: the first m' >= m at the last index or at a `]`. */
  function GroupEnd(cond: seq<char>, m: nat): (e: nat)
    requires m < |cond|
    ensures m <= e < |cond|
    decreases |cond| - m
  {
    if m >= |cond| - 1 || cond[m] == ']' then m else GroupEnd(cond, m + 1)
  }

  /** Where the do-while over a suffix group stops: the last m' <= m at index 0 or at a `[`. */
  function GroupStart(cond: seq<char>, m: nat): (b: nat)
    requires m < |cond|
    ensures b <= m
    decreases m
  {
    if m == 0 || cond[m] == '[' then m else GroupStart(cond, m - 1)
  }

  /** The forward loop of redundant_condition for a prefix, strip[i..] against cond[j..]. */
  function PfxScan(strip: seq<char>, cond: seq<char>, i: nat, j: nat): Res<Verdict>
    decreases |cond| - j
  {
    if i >= |strip| || j >= |cond| then Ok(Verdict(j >= |cond|, None))
    else if cond[j] != '[' then
      if cond[j] != strip[i] then Ok(Verdict(false, Some(Incompatible)))
      else PfxScan(strip, cond, i + 1, j + 1)
    else if j + 1 >= |cond| then Throws
    else
      var neg := cond[j + 1] == '^';
      var e := GroupEnd(cond, j + 1);
      if e == |cond| - 1 && cond[e] != ']' then Ok(Verdict(false, Some(Incomplete)))
      else if (strip[i] in cond[j + 1..e + 1]) == neg then Ok(Verdict(false, Some(Incompatible)))
      else PfxScan(strip, cond, i + 1, e + 1)
  }

  /** The backward loop of redundant_condition for a suffix, strip[..i+1] against cond[..j+1]. */
  function SfxScan(strip: seq<char>, cond: seq<char>, i: int, j: int): Verdict
    requires i < |strip| && j < |cond|
    decreases j + 1
  {
    if i < 0 || j < 0 then Verdict(j < 0, None)
    else if cond[j] != ']' then
      if cond[j] != strip[i] then Verdict(false, Some(Incompatible))
      else SfxScan(strip, cond, i - 1, j - 1)
    else if j > 0 then
      var b := GroupStart(cond, j - 1);
      if b == 0 && cond[b] != '[' then Verdict(false, Some(Incomplete))
      else if (strip[i] in cond[b..j]) == (cond[b + 1] == '^') then Verdict(false, Some(Incompatible))
      else SfxScan(strip, cond, i - 1, b - 1)
    else SfxScan(strip, cond, i - 1, j - 1)
  }

  /** What redundant_condition answers for affix type ft ('P' prefix, otherwise suffix). */
  function Redundant(ft: char, strip: seq<char>, cond: seq<char>): Res<Verdict>
  {
    if ft == 'P' then
      if IsPrefix(cond, strip) then Ok(Verdict(true, None)) else PfxScan(strip, cond, 0, 0)
    else
      if |strip| >= |cond| && IsSuffix(cond, strip) then Ok(Verdict(true, None))
      else Ok(SfxScan(strip, cond, |strip| - 1, |cond| - 1))
  }

  /** The do-while of a prefix group stops at the group's `]`. */
  lemma {:induction false} GroupEndAt(cond: seq<char>, m: nat, e: nat)
    requires m <= e < |cond| && cond[e] == ']'
    requires forall x :: m <= x < e ==> cond[x] != ']'
    ensures GroupEnd(cond, m) == e
    decreases e - m
  {
    if m < e {
      GroupEndAt(cond, m + 1, e);
    }
  }

  /** The do-while of a suffix group stops at the group's `[`. */
  lemma {:induction false} GroupStartAt(cond: seq<char>, m: nat, b: nat)
    requires b <= m < |cond| && cond[b] == '['
    requires forall x :: b < x <= m ==> cond[x] != '['
    ensures GroupStart(cond, m) == b
    decreases m - b
  {
    if b < m {
      GroupStartAt(cond, m - 1, b);
    }
  }

  /** A text without metacharacters is the text of literals and dots only, one character each. */
  lemma {:induction false} PlainRender(A: seq<Atom>)
    requires NoMeta(Render(A))
    ensures |Render(A)| == |A| && forall k :: 0 <= k < |A| ==> Holds(A[k], Render(A)[k])
    decreases |A|
  {
    if A != [] {
      var ra := RenderAtom(A[0]);
      assert Render(A) == ra + Render(A[1..]);
      assert ra[0] == Render(A)[0];
      assert !A[0].Group?;
      assert NoMeta(Render(A[1..])) by {
        forall k | 0 <= k < |Render(A[1..])| ensures !GroupMeta(Render(A[1..])[k]) {
          assert Render(A[1..])[k] == Render(A)[k + 1];
        }
      }
      PlainRender(A[1..]);
      forall k | 1 <= k < |A| ensures Holds(A[k], Render(A)[k]) {
        assert A[k] == A[1..][k - 1] && Render(A)[k] == Render(A[1..])[k - 1];
      }
    }
  }

  /** One round of the prefix scan. */
  lemma PfxStep(strip: seq<char>, cond: seq<char>, i: nat, j: nat)
    requires i < |strip| && j < |cond|
    ensures PfxScan(strip, cond, i, j) ==
      if cond[j] != '[' then
        if cond[j] != strip[i] then Ok(Verdict(false, Some(Incompatible)))
        else PfxScan(strip, cond, i + 1, j + 1)
      else if j + 1 >= |cond| then Throws
      else
        var e := GroupEnd(cond, j + 1);
        if e == |cond| - 1 && cond[e] != ']' then Ok(Verdict(false, Some(Incomplete)))
        else if (strip[i] in cond[j + 1..e + 1]) == (cond[j + 1] == '^') then Ok(Verdict(false, Some(Incompatible)))
        else PfxScan(strip, cond, i + 1, e + 1)
  {
  }

  lemma PfxStop(strip: seq<char>, cond: seq<char>, i: nat, j: nat)
    requires i >= |strip| || j >= |cond|
    ensures PfxScan(strip, cond, i, j) == Ok(Verdict(j >= |cond|, None))
  {
  }

  lemma PfxPlain(strip: seq<char>, cond: seq<char>, i: nat, j: nat)
    requires i < |strip| && j < |cond| && cond[j] != '['
    ensures PfxScan(strip, cond, i, j) ==
      if cond[j] != strip[i] then Ok(Verdict(false, Some(Incompatible))) else PfxScan(strip, cond, i + 1, j + 1)
  {
  }

  lemma PfxGroup(strip: seq<char>, cond: seq<char>, i: nat, j: nat, e: nat)
    requires i < |strip| && j + 1 <= e < |cond| && cond[j] == '[' && cond[e] == ']'
    requires GroupEnd(cond, j + 1) == e
    ensures PfxScan(strip, cond, i, j) ==
      if (strip[i] in cond[j + 1..e + 1]) == (cond[j + 1] == '^') then Ok(Verdict(false, Some(Incompatible)))
      else PfxScan(strip, cond, i + 1, e + 1)
  {
  }

  /** The group's list read by the scan: between the `[` (and a `^`) and the `]`, same membership for a plain character. */
  lemma GroupMembers(cond: seq<char>, j: nat, q: nat, e: nat, ch: char)
    requires j < q <= e < |cond| && cond[j] == '[' && cond[e] == ']'
    requires q == j + 1 || (q == j + 2 && cond[j + 1] == '^')
    requires !GroupMeta(ch)
    ensures (ch in cond[j + 1..e + 1]) == (ch in cond[q..e])
    ensures (ch in cond[j..e]) == (ch in cond[q..e])
  {
    if q == j + 1 {
      assert cond[j + 1..e + 1] == cond[q..e] + [cond[e]];
      assert cond[j..e] == [cond[j]] + cond[q..e];
    } else {
      assert cond[j + 1..e + 1] == [cond[j + 1]] + cond[q..e] + [cond[e]];
      assert cond[j..e] == [cond[j], cond[j + 1]] + cond[q..e];
    }
  }

  /** The atoms accept the characters of s from i on, one each. */
  ghost predicate LeadsAt(A: seq<Atom>, s: seq<char>, i: nat)
  {
    i + |A| <= |s| && forall k :: 0 <= k < |A| ==> Holds(A[k], s[i + k])
  }

  lemma LeadsCons(a: Atom, A: seq<Atom>, s: seq<char>, i: nat)
    requires i < |s| && Holds(a, s[i]) && LeadsAt(A, s, i + 1)
    ensures LeadsAt([a] + A, s, i)
  {
    forall k | 1 <= k < |A| + 1 ensures Holds(([a] + A)[k], s[i + k]) {
      assert ([a] + A)[k] == A[k - 1];
    }
  }

  /** The prefix scan succeeds only where the strip's characters from i on satisfy the atoms parsed from j on. */
  lemma {:induction false} PfxScanSound(strip: seq<char>, cond: seq<char>, i: nat, j: nat)
    requires NoMeta(strip) && i <= |strip| && j <= |cond| && ParseFrom(cond, j).Some?
    requires PfxScan(strip, cond, i, j).Ok? && PfxScan(strip, cond, i, j).value.redundant
    ensures LeadsAt(ParseFrom(cond, j).value, strip, i)
    decreases |cond| - j, 1
  {
    hide ParseFrom, PfxScan;
    if j >= |cond| {
      ParseEndStep(cond, j);
    } else if i >= |strip| {
      PfxStop(strip, cond, i, j);
    } else if cond[j] == '[' {
      PfxSoundGroup(strip, cond, i, j);
    } else {
      PfxSoundPlain(strip, cond, i, j);
    }
  }

  lemma {:induction false} PfxSoundPlain(strip: seq<char>, cond: seq<char>, i: nat, j: nat)
    requires NoMeta(strip) && i < |strip| && j < |cond| && cond[j] != '[' && ParseFrom(cond, j).Some?
    requires PfxScan(strip, cond, i, j).Ok? && PfxScan(strip, cond, i, j).value.redundant
    ensures LeadsAt(ParseFrom(cond, j).value, strip, i)
    decreases |cond| - j, 0
  {
    hide ParseFrom, PfxScan;
    ParsePlainStep(cond, j);
    PfxPlain(strip, cond, i, j);
    var a := if cond[j] == '.' then Any else Lit(cond[j]);
    var rest := ParseFrom(cond, j + 1).value;
    assert ParseFrom(cond, j).value == [a] + rest;
    PfxScanSound(strip, cond, i + 1, j + 1);
    LeadsCons(a, rest, strip, i);
  }

  lemma {:induction false} PfxSoundGroup(strip: seq<char>, cond: seq<char>, i: nat, j: nat)
    requires NoMeta(strip) && i < |strip| && j < |cond| && cond[j] == '[' && ParseFrom(cond, j).Some?
    requires PfxScan(strip, cond, i, j).Ok? && PfxScan(strip, cond, i, j).value.redundant
    ensures LeadsAt(ParseFrom(cond, j).value, strip, i)
    decreases |cond| - j, 0
  {
    hide ParseFrom, PfxScan;
    ParseGroupStep(cond, j);
    var neg, q := GroupNeg(cond, j), GroupFrom(cond, j);
    var e := SkipToClose(cond, q);
    assert e < |cond| && PlainRun(cond, q, e);
    var a := Group(cond[q..e], neg);
    var rest := ParseFrom(cond, e + 1).value;
    assert ParseFrom(cond, j).value == [a] + rest;
    GroupEndAt(cond, j + 1, e);
    PfxGroup(strip, cond, i, j, e);
    GroupMembers(cond, j, q, e, strip[i]);
    assert (cond[j + 1] == '^') == neg;
    PfxScanSound(strip, cond, i + 1, e + 1);
    LeadsCons(a, rest, strip, i);
  }

  /** One round of the suffix scan. */
  lemma SfxStep(strip: seq<char>, cond: seq<char>, i: nat, j: nat)
    requires i < |strip| && j < |cond|
    ensures SfxScan(strip, cond, i, j) ==
      if cond[j] != ']' then
        if cond[j] != strip[i] then Verdict(false, Some(Incompatible))
        else SfxScan(strip, cond, i - 1, j - 1)
      else if j > 0 then
        var b := GroupStart(cond, j - 1);
        if b == 0 && cond[b] != '[' then Verdict(false, Some(Incomplete))
        else if (strip[i] in cond[b..j]) == (cond[b + 1] == '^') then Verdict(false, Some(Incompatible))
        else SfxScan(strip, cond, i - 1, b - 1)
      else SfxScan(strip, cond, i - 1, j - 1)
  {
  }

  lemma SfxStop(strip: seq<char>, cond: seq<char>, i: int, j: int)
    requires i < |strip| && j < |cond| && (i < 0 || j < 0)
    ensures SfxScan(strip, cond, i, j) == Verdict(j < 0, None)
  {
  }

  lemma SfxPlain(strip: seq<char>, cond: seq<char>, i: nat, j: nat)
    requires i < |strip| && j < |cond| && cond[j] != ']'
    ensures SfxScan(strip, cond, i, j) ==
      if cond[j] != strip[i] then Verdict(false, Some(Incompatible)) else SfxScan(strip, cond, i - 1, j - 1)
  {
  }

  lemma SfxGroup(strip: seq<char>, cond: seq<char>, i: nat, j: nat, b: nat)
    requires i < |strip| && b < j < |cond| && cond[j] == ']' && cond[b] == '['
    requires GroupStart(cond, j - 1) == b
    ensures SfxScan(strip, cond, i, j) ==
      if (strip[i] in cond[b..j]) == (cond[b + 1] == '^') then Verdict(false, Some(Incompatible))
      else SfxScan(strip, cond, i - 1, b - 1)
  {
  }

  /** The atoms accept the characters of s up to index i, one each, left to right. */
  ghost predicate EndsAt(A: seq<Atom>, s: seq<char>, i: int)
  {
    i + 1 >= |A| && i < |s| && forall k :: 0 <= k < |A| ==> Holds(A[k], s[i + 1 - |A| + k])
  }

  lemma EndsSnoc(A: seq<Atom>, a: Atom, s: seq<char>, i: nat)
    requires i < |s| && Holds(a, s[i]) && EndsAt(A, s, i - 1)
    ensures EndsAt(A + [a], s, i)
  {
    forall k | 0 <= k < |A| ensures Holds((A + [a])[k], s[i + 1 - (|A| + 1) + k]) {
      assert (A + [a])[k] == A[k];
    }
  }

  /** Splitting off the last atom of a text. */
  lemma SnocFacts(B: seq<Atom>, S: seq<char>)
    requires AtomsOk(B) && B != []
    ensures var B', b := B[..|B| - 1], B[|B| - 1];
      && B == B' + [b] && AtomsOk(B') && AtomOk(b) && (b.Group? ==> NoMeta(b.chars))
      && Render(B) == Render(B') + RenderAtom(b)
      && Render(B) + S == Render(B') + RenderAtom(b) + S
      && Render(B') + (RenderAtom(b) + S) == Render(B') + RenderAtom(b) + S
  {
    hide *;
    SnocSplit(B);
    SnocRender(B[..|B| - 1], B[|B| - 1], S);
  }

  lemma SnocSplit(B: seq<Atom>)
    requires AtomsOk(B) && B != []
    ensures var B', b := B[..|B| - 1], B[|B| - 1];
      && B == B' + [b] && AtomsOk(B') && AtomOk(b) && (b.Group? ==> NoMeta(b.chars))
  {
    var B', b := B[..|B| - 1], B[|B| - 1];
    assert B == B' + [b];
    assert AtomsOk(B') by {
      forall k | 0 <= k < |B'| ensures AtomOk(B'[k]) {
        assert B'[k] == B[k];
      }
    }
  }

  lemma SnocRender(B': seq<Atom>, b: Atom, S: seq<char>)
    ensures Render(B' + [b]) == Render(B') + RenderAtom(b)
    ensures Render(B' + [b]) + S == Render(B') + RenderAtom(b) + S
    ensures Render(B') + (RenderAtom(b) + S) == Render(B') + RenderAtom(b) + S
  {
    RenderOne(b);
    hide Render;
    RenderAppend(B', [b]);
  }

  lemma RenderOne(b: Atom)
    ensures Render([b]) == RenderAtom(b)
  {
    assert [b][1..] == [];
  }

  /** The characters of a group's text, by position. */
  lemma GroupChars(cs: seq<char>, neg: bool)
    requires NoMeta(cs)
    ensures var ra, o := RenderAtom(Group(cs, neg)), |Opener(neg)|;
      && o == (if neg then 2 else 1) && |ra| == o + |cs| + 1
      && ra[0] == '[' && ra[|ra| - 1] == ']' && (ra[1] == '^') == neg
      && ra[o..|ra| - 1] == cs
      && (forall x :: 0 < x < |ra| - 1 ==> ra[x] != '[')
  {
    var ra, o := RenderAtom(Group(cs, neg)), |Opener(neg)|;
    ReversedGroup(cs, neg);
    forall x | o <= x < |ra| - 1 ensures ra[x] == cs[x - o] {
    }
    if !neg && |cs| > 0 {
      assert ra[1] == cs[0];
    }
  }

  /** A text put between two others keeps its characters, shifted. */
  lemma Embedded(P: seq<char>, ra: seq<char>, R: seq<char>)
    ensures forall k :: 0 <= k < |ra| ==> (P + ra + R)[|P| + k] == ra[k]
    ensures (P + ra + R)[|P|..|P| + |ra|] == ra
  {
  }

  /** Where a group's text sits inside a longer text. */
  lemma GroupLayout(P: seq<char>, cs: seq<char>, neg: bool, R: seq<char>)
    requires NoMeta(cs)
    ensures var c, b0 := P + RenderAtom(Group(cs, neg)) + R, |P|;
      var q := if neg then b0 + 2 else b0 + 1;
      var e := q + |cs|;
      && e == b0 + |RenderAtom(Group(cs, neg))| - 1 && e < |c|
      && c[b0] == '[' && c[e] == ']' && c[q..e] == cs
      && (c[b0 + 1] == '^') == neg
      && (forall x :: b0 < x < e ==> c[x] != '[')
  {
    hide *;
    var ra := RenderAtom(Group(cs, neg));
    GroupChars(cs, neg);
    Embedded(P, ra, R);
    var c, b0 := P + ra + R, |P|;
    var q := if neg then b0 + 2 else b0 + 1;
    var e := q + |cs|;
    assert c[b0] == ra[0] && c[e] == ra[|ra| - 1] && c[b0 + 1] == ra[1];
    assert c[q..e] == c[b0..b0 + |ra|][q - b0..e - b0];
    forall x | b0 < x < e ensures c[x] != '[' {
      assert c[x] == ra[x - b0];
    }
  }

  /** The suffix scan succeeds only where the strip's characters up to i satisfy the atoms of a text ending at its index. */
  lemma {:induction false} SfxScanSound(strip: seq<char>, B: seq<Atom>, S: seq<char>, i: int)
    requires AtomsOk(B) && NoMeta(strip) && -1 <= i < |strip|
    requires SfxScan(strip, Render(B) + S, i, |Render(B)| - 1).redundant
    ensures EndsAt(B, strip, i)
    decreases |B|, 1
  {
    hide Render, SfxScan;
    if B == [] {
      RenderNil();
    } else if i < 0 {
      assert |Render(B)| >= |RenderAtom(B[|B| - 1])| by {
        SnocFacts(B, []);
        hide RenderAtom;
      }
      SfxStop(strip, Render(B) + S, i, |Render(B)| - 1);
    } else if B[|B| - 1].Group? {
      SfxSoundGroup(strip, B, S, i);
    } else {
      SfxSoundPlain(strip, B, S, i);
    }
  }

  lemma RenderNil()
    ensures Render([]) == []
  {
  }

  lemma {:induction false} SfxSoundPlain(strip: seq<char>, B: seq<Atom>, S: seq<char>, i: nat)
    requires AtomsOk(B) && NoMeta(strip) && i < |strip| && B != [] && !B[|B| - 1].Group?
    requires SfxScan(strip, Render(B) + S, i, |Render(B)| - 1).redundant
    ensures EndsAt(B, strip, i)
    decreases |B|, 0
  {
    hide Render, SfxScan, AtomsOk, NoMeta;
    var B', b := B[..|B| - 1], B[|B| - 1];
    SnocFacts(B, S);
    var P, rb := Render(B'), RenderAtom(b);
    var cond := Render(B) + S;
    var j := |P|;
    assert |rb| == 1 && cond[j] == rb[0];
    SfxPlain(strip, cond, i, j);
    assert Holds(b, strip[i]);
    SfxScanSound(strip, B', rb + S, i - 1);
    EndsSnoc(B', b, strip, i);
  }

  lemma {:induction false} SfxSoundGroup(strip: seq<char>, B: seq<Atom>, S: seq<char>, i: nat)
    requires AtomsOk(B) && NoMeta(strip) && i < |strip| && B != [] && B[|B| - 1].Group?
    requires SfxScan(strip, Render(B) + S, i, |Render(B)| - 1).redundant
    ensures EndsAt(B, strip, i)
    decreases |B|, 0
  {
    hide *;
    var B', b := B[..|B| - 1], B[|B| - 1];
    SnocFacts(B, S);
    NoMetaAt(strip, i);
    var cs, neg := b.chars, b.neg;
    var P, rb := Render(B'), RenderAtom(b);
    var cond := Render(B) + S;
    var b0 := |P|;
    var q := if neg then b0 + 2 else b0 + 1;
    var e := q + |cs|;
    GroupLayout(P, cs, neg, S);
    GroupStartAt(cond, e - 1, b0);
    SfxGroup(strip, cond, i, e, b0);
    GroupMembers(cond, b0, q, e, strip[i]);
    HoldsGroup(cs, neg, strip[i]);
    SfxScanSound(strip, B', rb + S, i - 1);
    EndsSnoc(B', b, strip, i);
  }

  lemma NoMetaAt(s: seq<char>, i: nat)
    requires NoMeta(s) && i < |s|
    ensures !GroupMeta(s[i])
  {
  }

  lemma HoldsGroup(cs: seq<char>, neg: bool, ch: char)
    ensures Holds(Group(cs, neg), ch) == ((ch in cs) != neg)
  {
  }

  /**
   * redundant_condition only answers true for a well-formed condition the
   * strip already satisfies: a prefix condition on the strip's first
   * characters, a suffix condition on its last characters.
   */
  lemma RedundantSound(ft: char, strip: seq<char>, cond: seq<char>)
    requires WellFormed(cond) && NoMeta(strip)
    requires Redundant(ft, strip, cond).Ok? && Redundant(ft, strip, cond).value.redundant
    ensures ft == 'P' ==> LeadsAt(Parse(cond).value, strip, 0)
    ensures ft != 'P' ==> EndsIn(Parse(cond).value, strip)
  {
    hide ParseFrom, PfxScan, SfxScan, Render, AtomsOk, NoMeta, LeadsAt, EndsAt, EndsIn;
    var A := Parse(cond).value;
    RenderParse(cond, 0);
    assert cond[0..] == cond;
    if ft == 'P' {
      if IsPrefix(cond, strip) {
        PlainPrefix(A, strip);
      } else {
        PfxScanSound(strip, cond, 0, 0);
      }
    } else {
      if |strip| >= |cond| && IsSuffix(cond, strip) {
        PlainSuffix(A, strip);
      } else {
        assert Render(A) + [] == cond;
        SfxScanSound(strip, A, [], |strip| - 1);
        EndsAtIn(A, strip);
      }
    }
  }

  lemma EndsAtIn(A: seq<Atom>, s: seq<char>)
    requires EndsAt(A, s, |s| - 1)
    ensures EndsIn(A, s)
  {
  }

  /** A condition text that the strip starts with is made of literals and dots the strip matches. */
  lemma PlainPrefix(A: seq<Atom>, strip: seq<char>)
    requires NoMeta(strip) && IsPrefix(Render(A), strip)
    ensures LeadsAt(A, strip, 0)
  {
    var c := Render(A);
    assert NoMeta(c) by {
      forall k | 0 <= k < |c| ensures !GroupMeta(c[k]) {
        assert c[k] == strip[k];
      }
    }
    PlainRender(A);
    forall k | 0 <= k < |A| ensures Holds(A[k], strip[0 + k]) {
      assert c[k] == strip[k];
    }
  }

  /** A condition text that the strip ends with is made of literals and dots the strip matches. */
  lemma PlainSuffix(A: seq<Atom>, strip: seq<char>)
    requires NoMeta(strip) && |strip| >= |Render(A)| && IsSuffix(Render(A), strip)
    ensures EndsIn(A, strip)
  {
    var c := Render(A);
    assert NoMeta(c) by {
      forall k | 0 <= k < |c| ensures !GroupMeta(c[k]) {
        assert c[k] == strip[|strip| - |c| + k];
      }
    }
    PlainRender(A);
    forall k | 0 <= k < |A| ensures Holds(A[k], strip[|strip| - |A| + k]) {
      assert c[k] == strip[|strip| - |c| + k];
    }
  }

  /** Atoms accepting the characters from st on make the prefix reading succeed from st. */
  lemma {:induction false} LeadsRun(A: seq<Atom>, w: seq<char>, st: nat)
    requires st + |A| <= |w| && forall k :: 0 <= k < |A| ==> Holds(A[k], w[st + k])
    ensures PfxRun(A, w, st)
    decreases |A|
  {
    if A != [] {
      assert Holds(A[0], w[st]);
      forall k | 0 <= k < |A[1..]| ensures Holds(A[1..][k], w[st + 1 + k]) {
        assert A[1..][k] == A[k + 1];
      }
      LeadsRun(A[1..], w, st + 1);
    }
  }

  /**
   * A prefix condition the strip satisfies is redundant: every stem that
   * begins with the strip passes PfxEntry.test_condition's reading of it.
   */
  lemma PrefixRedundantHolds(A: seq<Atom>, strip: seq<char>, w: seq<char>)
    requires LeadsAt(A, strip, 0) && IsPrefix(strip, w)
    ensures PfxRun(A, w, 0)
  {
    forall k | 0 <= k < |A| ensures Holds(A[k], w[0 + k]) {
      assert w[k] == strip[k];
    }
    LeadsRun(A, w, 0);
  }

  /**
   * A suffix condition the strip satisfies is redundant: once stored
   * mirrored, it accepts every stem that ends with the strip.
   */
  lemma SuffixRedundantHolds(cond: seq<char>, strip: seq<char>, w: seq<char>)
    requires WellFormed(cond) && EndsIn(Parse(cond).value, strip) && IsSuffix(strip, w)
    ensures RevCond(cond).Some? && WellFormed(RevCond(cond).value)
    ensures SfxHolds(Parse(RevCond(cond).value).value, w)
  {
    hide ParseFrom, RevLoop, Render, Mirror, SfxHolds, MirrorAtom;
    var A := Parse(cond).value;
    RevCondMirrors(cond);
    EndsWiden(A, strip, w);
    MirrorReadsForward(A, w);
  }

  /** Atoms accepting the end of the strip accept the end of every word ending with it. */
  lemma EndsWiden(A: seq<Atom>, strip: seq<char>, w: seq<char>)
    requires EndsIn(A, strip) && IsSuffix(strip, w)
    ensures EndsIn(A, w)
  {
    forall k | 0 <= k < |A| ensures Holds(A[k], w[|w| - |A| + k]) {
      assert w[|w| - |A| + k] == strip[|strip| - |A| + k];
    }
  }

  /**
   * redundant_condition(ft, strip, cond): for a prefix ('P') the strip
   * starting with the condition's text, or the forward loop; otherwise the
   * strip ending with it, or the backward loop. A true answer means the
   * condition holds on the strip itself.
   */
  method RedundantCondition(ft: char, strip: seq<char>, cond: seq<char>) returns (r: Res<Verdict>)
    ensures r == Redundant(ft, strip, cond)
    ensures r.Ok? && r.value.redundant && WellFormed(cond) && NoMeta(strip) ==>
      (ft == 'P' ==> LeadsAt(Parse(cond).value, strip, 0)) && (ft != 'P' ==> EndsIn(Parse(cond).value, strip))
  {
    if ft == 'P' {
      r := PrefixRedundant(strip, cond);
    } else {
      var v := SuffixRedundant(strip, cond);
      r := Ok(v);
    }
    if r.Ok? && r.value.redundant && WellFormed(cond) && NoMeta(strip) {
      RedundantSound(ft, strip, cond);
    }
  }

  /** The prefix branch of redundant_condition. */
  method PrefixRedundant(strip: seq<char>, cond: seq<char>) returns (r: Res<Verdict>)
    ensures r == Redundant('P', strip, cond)
  {
    var starts := StartsWith(strip, cond);
    if starts {
      return Ok(Verdict(true, None));
    }
    var i, j := 0, 0;
    hide PfxScan;
    while i < |strip| && j < |cond|
      invariant PfxScan(strip, cond, i, j) == PfxScan(strip, cond, 0, 0)
      decreases |cond| - j
    {
      PfxStep(strip, cond, i, j);
      if cond[j] != '[' {
        if cond[j] != strip[i] {
          return Ok(Verdict(false, Some(Incompatible)));
        }
      } else {
        if j + 1 >= |cond| {
          return Throws;
        }
        var neg := cond[j + 1] == '^';
        var inG;
        j, inG := GroupForward(strip[i], cond, j);
        if j == |cond| - 1 && cond[j] != ']' {
          return Ok(Verdict(false, Some(Incomplete)));
        }
        if (!neg && !inG) || (neg && inG) {
          return Ok(Verdict(false, Some(Incompatible)));
        }
      }
      i, j := i + 1, j + 1;
    }
    PfxStop(strip, cond, i, j);
    if j >= |cond| {
      return Ok(Verdict(true, None));
    }
    return Ok(Verdict(false, None));
  }

  /** The do-while over a prefix group: from the `[` at j0, on to the `]` or the last character, noting whether ch is met. */
  method GroupForward(ch: char, cond: seq<char>, j0: nat) returns (j: nat, inG: bool)
    requires j0 + 1 < |cond|
    ensures j == GroupEnd(cond, j0 + 1)
    ensures inG <==> ch in cond[j0 + 1..j + 1]
  {
    j := j0 + 1;
    inG := ch == cond[j];
    assert cond[j0 + 1..j + 1] == [cond[j]];
    while j < |cond| - 1 && cond[j] != ']'
      invariant j0 + 1 <= j < |cond|
      invariant GroupEnd(cond, j) == GroupEnd(cond, j0 + 1)
      invariant inG <==> ch in cond[j0 + 1..j + 1]
      decreases |cond| - j
    {
      j := j + 1;
      assert cond[j0 + 1..j + 1] == cond[j0 + 1..j] + [cond[j]];
      if ch == cond[j] {
        inG := true;
      }
    }
  }

  /** The do-while over a suffix group: from the `]` at j0, back to the `[` or index 0, noting whether ch is met. */
  method GroupBackward(ch: char, cond: seq<char>, j0: nat) returns (j: nat, inG: bool)
    requires 0 < j0 < |cond|
    ensures j == GroupStart(cond, j0 - 1)
    ensures inG <==> ch in cond[j..j0]
  {
    j := j0 - 1;
    inG := ch == cond[j];
    assert cond[j..j0] == [cond[j]];
    while j > 0 && cond[j] != '['
      invariant 0 <= j < j0
      invariant GroupStart(cond, j) == GroupStart(cond, j0 - 1)
      invariant inG <==> ch in cond[j..j0]
      decreases j
    {
      j := j - 1;
      assert cond[j..j0] == [cond[j]] + cond[j + 1..j0];
      if ch == cond[j] {
        inG := true;
      }
    }
  }

  /** The suffix branch of redundant_condition. */
  method SuffixRedundant(strip: seq<char>, cond: seq<char>) returns (v: Verdict)
    ensures Ok(v) == Redundant('S', strip, cond)
  {
    var ends := EndsWith(strip, cond);
    if |strip| >= |cond| && ends {
      return Verdict(true, None);
    }
    var i, j := |strip| - 1, |cond| - 1;
    hide SfxScan;
    while i >= 0 && j >= 0
      invariant -1 <= i < |strip| && -1 <= j < |cond|
      invariant SfxScan(strip, cond, i, j) == SfxScan(strip, cond, |strip| - 1, |cond| - 1)
      decreases j + 1
    {
      SfxStep(strip, cond, i, j);
      if cond[j] != ']' {
        if cond[j] != strip[i] {
          return Verdict(false, Some(Incompatible));
        }
      } else if j > 0 {
        var inG;
        j, inG := GroupBackward(strip[i], cond, j);
        if j == 0 && cond[j] != '[' {
          return Verdict(false, Some(Incomplete));
        }
        var neg := cond[j + 1] == '^';
        if (!neg && !inG) || (neg && inG) {
          return Verdict(false, Some(Incompatible));
        }
      }
      i, j := i - 1, j - 1;
    }
    SfxStop(strip, cond, i, j);
    if j < 0 {
      return Verdict(true, None);
    }
    return Verdict(false, None);
  }
}
