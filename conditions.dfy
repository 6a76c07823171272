/**
 * Affix conditions (PfxEntry.cs, SfxEntry.cs, AffixMgr.cs condlen/encodeit).
 *
 * A condition is a compact pattern of atoms: a literal character, `.` (any
 * character) or a bracket group `[abc]` / `[^abc]`. A prefix condition is
 * read forward from the first character of the stem; a suffix condition is
 * stored reversed (see reverse_word_condition) and read backward from the
 * last character. The two `test_condition` loops walk the raw pattern one
 * character at a time; this module relates them to the atom reading.
 */
module Conditions {
  import opened Base

  datatype Atom = Lit(c: char) | Any | Group(chars: seq<char>, neg: bool)

  /** Whether one atom accepts one character. */
  predicate Holds(a: Atom, c: char)
  {
    match a
    case Lit(l) => c == l
    case Any => true
    case Group(cs, neg) => (c in cs) != neg
  }

  /** Characters that may not appear inside a bracket group. */
  predicate GroupMeta(c: char)
  {
    c == '[' || c == ']' || c == '^'
  }

  /** The first index at or after `q` holding `]`, or |conds|. */
  function SkipToClose(conds: seq<char>, q: nat): (e: nat)
    ensures q <= e || (q > |conds| && e == |conds|)
    ensures e <= |conds| || e == q
    ensures e < |conds| ==> conds[e] == ']'
    ensures forall k :: q <= k < e && k < |conds| ==> conds[k] != ']'
    decreases |conds| - q
  {
    if q >= |conds| then (if q > |conds| then |conds| else q)
    else if conds[q] == ']' then q
    else SkipToClose(conds, q + 1)
  }

  /** The inner loop skipping the rest of a matched group up to its `]`. */
  method ScanToClose(conds: seq<char>, q: nat) returns (p: nat)
    requires q <= |conds|
    ensures p == SkipToClose(conds, q)
  {
    p := q;
    while p < |conds| && conds[p] != ']'
      invariant q <= p <= |conds|
      invariant SkipToClose(conds, p) == SkipToClose(conds, q)
      decreases |conds| - p
    {
      p := p + 1;
    }
  }

  /** No group metacharacter in conds[q..e]. */
  predicate PlainRun(conds: seq<char>, q: nat, e: nat)
  {
    q <= e <= |conds| && forall k :: q <= k < e ==> !GroupMeta(conds[k])
  }

  /** The atoms of conds[p..], or None when the pattern is ill-formed. */
  function ParseFrom(conds: seq<char>, p: nat): (r: Option<seq<Atom>>)
    ensures r.Some? && p < |conds| ==> |r.value| > 0
    decreases |conds| - p
  {
    if p >= |conds| then Some([])
    else
      var c := conds[p];
      if c == '[' then
        var neg := p + 1 < |conds| && conds[p + 1] == '^';
        var q := if neg then p + 2 else p + 1;
        var e := SkipToClose(conds, q);
        if e >= |conds| || !PlainRun(conds, q, e) then None
        else match ParseFrom(conds, e + 1)
          case None => None
          case Some(rest) => Some([Group(conds[q..e], neg)] + rest)
      else if c == ']' || c == '^' then None
      else match ParseFrom(conds, p + 1)
        case None => None
        case Some(rest) => Some([if c == '.' then Any else Lit(c)] + rest)
  }

  function Parse(conds: seq<char>): Option<seq<Atom>>
  {
    ParseFrom(conds, 0)
  }

  predicate WellFormed(conds: seq<char>)
  {
    Parse(conds).Some?
  }

  // ---------------------------------------------------------------------
  // Prefix conditions: read forward

  /**
   * The prefix reading of atoms A starting at stem position st. A literal
   * needs its character; `.` and a matched group consume one character, and
   * fail when they consume the last character while atoms remain; a negated
   * group also accepts the end of the stem.
   */
  function PfxRun(A: seq<Atom>, s: seq<char>, st: nat): bool
    decreases |A|
  {
    if A == [] then true
    else
      var more := |A| > 1;
      match A[0]
      case Lit(c) => st < |s| && s[st] == c && (!more || PfxRun(A[1..], s, st + 1))
      case Any => !(more && st + 1 == |s|) && (!more || PfxRun(A[1..], s, st + 1))
      case Group(cs, neg) =>
        var inG := st < |s| && s[st] in cs;
        neg != inG &&
        var st' := if st < |s| then st + 1 else st;
        !(more && st' == |s|) && (!more || PfxRun(A[1..], s, st'))
  }

  /** The state machine of PfxEntry.test_condition, one pattern character per step. */
  function PfxLoop(conds: seq<char>, s: seq<char>, p: nat, st: nat, pos: int, neg: bool, ingroup: bool): bool
    decreases |conds| - p
  {
    if p >= |conds| then true
    else
      var c := conds[p];
      if c == '[' then PfxLoop(conds, s, p + 1, st, st, false, false)
      else if c == '^' then PfxLoop(conds, s, p + 1, st, pos, true, ingroup)
      else if c == ']' then
        if neg == ingroup then false
        else
          var st' := if !ingroup && st < |s| then st + 1 else st;
          if st' == |s| && p + 1 < |conds| then false
          else PfxLoop(conds, s, p + 1, st', -1, neg, ingroup)
      else if c == '.' && pos < 0 then
        if st + 1 == |s| && p + 1 < |conds| then false
        else PfxLoop(conds, s, p + 1, st + 1, pos, neg, ingroup)
      else if st < |s| && s[st] == c then
        if pos >= 0 then PfxLoop(conds, s, SkipToClose(conds, p + 1), st + 1, pos, neg, true)
        else PfxLoop(conds, s, p + 1, st + 1, pos, neg, ingroup)
      else if pos >= 0 then PfxLoop(conds, s, p + 1, st, pos, neg, ingroup)
      else false
  }

  /**
   * What PfxEntry.test_condition answers: with no conditions it accepts;
   * with a well-formed pattern it is the forward atom reading PfxRun.
   */
  function PfxTest(conds: seq<char>, numconds: nat, s: seq<char>): (r: bool)
    ensures numconds == 0 ==> r
    ensures numconds > 0 && |conds| > 0 && WellFormed(conds) ==> (r <==> PfxRun(Parse(conds).value, s, 0))
  {
    if numconds == 0 then true
    else
      if |conds| > 0 && WellFormed(conds) then PrefixLoopIsRun(conds, s); PfxLoop(conds, s, 0, 0, -1, false, false)
      else PfxLoop(conds, s, 0, 0, -1, false, false)
  }

  /** PfxEntry.test_condition. */
  method PrefixTestCondition(conds: seq<char>, numconds: nat, s: seq<char>) returns (r: bool)
    requires numconds > 0 ==> |conds| > 0
    ensures r == PfxTest(conds, numconds, s)
    ensures numconds == 0 ==> r
    ensures numconds > 0 && WellFormed(conds) ==> (r <==> PfxRun(Parse(conds).value, s, 0))
  {
    if numconds == 0 {
      return true;
    }
    var st, pos, neg, ingroup := 0, -1, false, false;
    var p := 0;
    var len := |s|;
    ghost var goal := PfxLoop(conds, s, 0, 0, -1, false, false);
    if WellFormed(conds) {
      PrefixLoopIsRun(conds, s);
    }
    while true
      invariant 0 <= p < |conds|
      invariant goal == PfxLoop(conds, s, p, st, pos, neg, ingroup)
      decreases |conds| - p
    {
      var c := conds[p];
      if c == '[' {
        neg := false;
        ingroup := false;
        p := p + 1;
        pos := st;
      } else if c == '^' {
        p := p + 1;
        neg := true;
      } else if c == ']' {
        if neg == ingroup {
          return false;
        }
        pos := -1;
        p := p + 1;
        if !ingroup && st < len {
          st := st + 1;
        }
        if st == len && p < |conds| {
          return false;
        }
      } else if c == '.' && pos < 0 {
        p := p + 1;
        st := st + 1;
        if st == len && p < |conds| {
          return false;
        }
      } else {
        if st < len && s[st] == c {
          st := st + 1;
          p := p + 1;
          if pos >= 0 {
            ingroup := true;
            p := ScanToClose(conds, p);
          }
        } else if pos >= 0 {
          p := p + 1;
        } else {
          return false;
        }
      }
      if p >= |conds| {
        return true;
      }
    }
  }

  // ---------------------------------------------------------------------
  // Suffix conditions: read backward

  /**
   * The suffix reading: the stem is at least as long as the pattern and
   * atom k accepts the k-th character from the end.
   */
  predicate SfxHolds(A: seq<Atom>, s: seq<char>)
  {
    |s| >= |A| && forall k :: 0 <= k < |A| ==> Holds(A[k], s[|s| - 1 - k])
  }

  /** The state machine of SfxEntry.test_condition, one pattern character per step. */
  function SfxLoop(conds: seq<char>, numconds: int, s: seq<char>, p: nat, st: int, pos: int, neg: bool, ingroup: bool, i: int): bool
    decreases |conds| - p
  {
    if p >= |conds| then true
    else
      var c := conds[p];
      if c == '[' then SfxLoop(conds, numconds, s, p + 1, st, st, neg, ingroup, i)
      else if c == '^' then SfxLoop(conds, numconds, s, p + 1, st, pos, true, ingroup, i)
      else if c == ']' then
        if !neg && !ingroup then false
        else
          var st' := if !ingroup then st - 1 else st;
          if st' < 0 && p + 1 < |conds| then false
          else SfxLoop(conds, numconds, s, p + 1, st', -1, false, false, i + 1)
      else if c == '.' && pos < 0 then
        if st - 1 < 0 then p + 1 >= |conds|
        else SfxLoop(conds, numconds, s, p + 1, st - 1, pos, neg, ingroup, i)
      else if 0 <= st < |s| && s[st] == c then
        if pos >= 0 then
          if neg then false
          else if i == numconds then true
          else SfxLoop(conds, numconds, s, SkipToClose(conds, p + 1), st - 1, pos, neg, true, i)
        else if st - 1 < 0 && p + 1 < |conds| && conds[p + 1] != ']' then false
        else SfxLoop(conds, numconds, s, p + 1, st - 1, pos, neg, ingroup, i + 1)
      else if pos >= 0 then SfxLoop(conds, numconds, s, p + 1, st, pos, neg, ingroup, i)
      else false
  }

  /**
   * What SfxEntry.test_condition answers over a (reversed) pattern. With no
   * conditions it accepts; with a well-formed pattern of at most numconds
   * atoms it accepts exactly when the stem ends with characters the atoms
   * accept.
   */
  function SfxTest(conds: seq<char>, numconds: nat, s: seq<char>): (r: bool)
    ensures numconds == 0 ==> r
    ensures numconds > 0 && |conds| > 0 && |s| > 0 && WellFormed(conds) && |Parse(conds).value| <= numconds ==>
      (r <==> SfxHolds(Parse(conds).value, s))
  {
    if numconds == 0 then true
    else
      if |conds| > 0 && |s| > 0 && WellFormed(conds) && |Parse(conds).value| <= numconds then
        SuffixLoopIsHolds(conds, numconds, s); SfxLoop(conds, numconds, s, 0, |s| - 1, -1, false, false, 1)
      else SfxLoop(conds, numconds, s, 0, |s| - 1, -1, false, false, 1)
  }

  /** SfxEntry.test_condition. */
  method SuffixTestCondition(conds: seq<char>, numconds: nat, s: seq<char>) returns (r: bool)
    requires numconds > 0 ==> |conds| > 0 && |s| > 0
    ensures r == SfxTest(conds, numconds, s)
    ensures numconds == 0 ==> r
    ensures numconds > 0 && WellFormed(conds) && |Parse(conds).value| <= numconds ==>
      (r <==> SfxHolds(Parse(conds).value, s))
  {
    if numconds == 0 {
      return true;
    }
    var st := |s|;
    var pos, neg, ingroup := -1, false, false;
    var p := 0;
    st := st - 1;
    var i := 1;
    ghost var goal := SfxLoop(conds, numconds, s, 0, |s| - 1, -1, false, false, 1);
    if WellFormed(conds) && |Parse(conds).value| <= numconds {
      SuffixLoopIsHolds(conds, numconds, s);
    }
    assert SfxTest(conds, numconds, s) == goal;
    hide Parse, WellFormed, SfxHolds, SfxTest;
    while true
      invariant 0 <= p < |conds|
      invariant -1 <= st < |s|
      invariant st < 0 ==> conds[p] == ']'
      invariant goal == SfxLoop(conds, numconds, s, p, st, pos, neg, ingroup, i)
      decreases |conds| - p
    {
      var c := conds[p];
      if c == '[' {
        p := p + 1;
        pos := st;
      } else if c == '^' {
        p := p + 1;
        neg := true;
      } else if c == ']' {
        if !neg && !ingroup {
          return false;
        }
        i := i + 1;
        if !ingroup {
          st := st - 1;
        }
        pos := -1;
        neg := false;
        ingroup := false;
        p := p + 1;
        if st < 0 && p < |conds| {
          return false;
        }
      } else if c == '.' && pos < 0 {
        p := p + 1;
        st := st - 1;
        if st < 0 {
          return p >= |conds|;
        }
      } else {
        if s[st] == c {
          p := p + 1;
          if pos >= 0 {
            if neg {
              return false;
            } else if i == numconds {
              return true;
            }
            ingroup := true;
            p := ScanToClose(conds, p);
            st := st - 1;
          }
          if pos < 0 {
            i := i + 1;
            st := st - 1;
          }
          if st < 0 && p < |conds| && conds[p] != ']' {
            return false;
          }
        } else if pos >= 0 {
          p := p + 1;
        } else {
          return false;
        }
      }
      if p >= |conds| {
        return true;
      }
    }
  }

  // ---------------------------------------------------------------------
  // From the character machines to the atom readings

  lemma PrefixLoopIsRun(conds: seq<char>, s: seq<char>)
    requires WellFormed(conds) && |conds| > 0
    ensures PfxLoop(conds, s, 0, 0, -1, false, false) == PfxRun(Parse(conds).value, s, 0)
  {
    PfxBoundary(conds, s, 0, 0, false, false);
  }

  lemma SuffixLoopIsHolds(conds: seq<char>, numconds: int, s: seq<char>)
    requires WellFormed(conds) && |conds| > 0 && |s| > 0
    requires |Parse(conds).value| <= numconds
    ensures SfxLoop(conds, numconds, s, 0, |s| - 1, -1, false, false, 1) == SfxHolds(Parse(conds).value, s)
  {
    var A := Parse(conds).value;
    SfxBoundary(conds, numconds, s, 0, |s| - 1, 1);
    SfxTail(A, s, |s| - 1);
  }

  /** Inside a group: scanning the group characters finds whether s[st] is one of them. */
  lemma {:induction false} PfxGroupScan(conds: seq<char>, s: seq<char>, j: nat, e: nat, st: nat, neg: bool)
    requires PlainRun(conds, j, e) && e < |conds| && conds[e] == ']'
    ensures PfxLoop(conds, s, j, st, st, neg, false) ==
      var inG := st < |s| && s[st] in conds[j..e];
      PfxLoop(conds, s, e, if inG then st + 1 else st, st, neg, inG)
    decreases e - j
  {
    if j < e {
      assert conds[j] != '[' && conds[j] != ']' && conds[j] != '^';
      if st < |s| && s[st] == conds[j] {
        assert SkipToClose(conds, j + 1) == e by { SkipEnds(conds, j + 1, e); }
      } else {
        PfxGroupScan(conds, s, j + 1, e, st, neg);
        assert conds[j..e] == [conds[j]] + conds[j + 1..e];
      }
    }
  }

  lemma {:induction false} SkipEnds(conds: seq<char>, q: nat, e: nat)
    requires q <= e < |conds| && conds[e] == ']'
    requires forall k :: q <= k < e ==> conds[k] != ']'
    ensures SkipToClose(conds, q) == e
    decreases e - q
  {
    if q < e {
      SkipEnds(conds, q + 1, e);
    }
  }

  /** At an atom boundary the prefix machine computes the prefix reading of the remaining atoms. */
  lemma {:induction false} PfxBoundary(conds: seq<char>, s: seq<char>, p: nat, st: nat, neg: bool, ingroup: bool)
    requires p < |conds| && ParseFrom(conds, p).Some?
    ensures PfxLoop(conds, s, p, st, -1, neg, ingroup) == PfxRun(ParseFrom(conds, p).value, s, st)
    decreases |conds| - p
  {
    var A := ParseFrom(conds, p).value;
    var c := conds[p];
    if c == '[' {
      var gneg := p + 1 < |conds| && conds[p + 1] == '^';
      var q := if gneg then p + 2 else p + 1;
      var e := SkipToClose(conds, q);
      var rest := ParseFrom(conds, e + 1).value;
      assert A == [Group(conds[q..e], gneg)] + rest;
      if gneg {
        assert PfxLoop(conds, s, p, st, -1, neg, ingroup) == PfxLoop(conds, s, p + 2, st, st, true, false);
      }
      PfxGroupScan(conds, s, q, e, st, gneg);
      var inG := st < |s| && s[st] in conds[q..e];
      if gneg != inG {
        var st' := if st < |s| then st + 1 else st;
        if e + 1 < |conds| {
          PfxBoundary(conds, s, e + 1, st', gneg, inG);
        }
      }
    } else {
      var rest := ParseFrom(conds, p + 1).value;
      assert A[1..] == rest;
      if p + 1 < |conds| {
        PfxBoundary(conds, s, p + 1, st + 1, neg, ingroup);
      }
    }
  }

  lemma {:induction false} SfxGroupScan(conds: seq<char>, numconds: int, s: seq<char>, j: nat, e: nat, st: int, neg: bool, i: int)
    requires PlainRun(conds, j, e) && e < |conds| && conds[e] == ']'
    requires 0 <= st < |s|
    ensures SfxLoop(conds, numconds, s, j, st, st, neg, false, i) ==
      if s[st] in conds[j..e] then
        (if neg then false else if i == numconds then true
         else SfxLoop(conds, numconds, s, e, st - 1, st, neg, true, i))
      else SfxLoop(conds, numconds, s, e, st, st, neg, false, i)
    decreases e - j
  {
    if j < e {
      assert conds[j] != '[' && conds[j] != ']' && conds[j] != '^';
      if s[st] == conds[j] {
        assert SkipToClose(conds, j + 1) == e by { SkipEnds(conds, j + 1, e); }
      } else {
        SfxGroupScan(conds, numconds, s, j + 1, e, st, neg, i);
      }
      assert conds[j..e] == [conds[j]] + conds[j + 1..e];
    }
  }

  /**
   * At an atom boundary, with st the index of the next character to test
   * (counting from the start), the suffix machine checks the remaining atoms
   * against s[st], s[st-1], ... and fails when the stem runs out.
   */
  lemma {:induction false} SfxBoundary(conds: seq<char>, numconds: int, s: seq<char>, p: nat, st: int, i: int)
    requires p < |conds| && ParseFrom(conds, p).Some?
    requires 0 <= st < |s|
    requires i + |ParseFrom(conds, p).value| <= numconds + 1
    ensures SfxLoop(conds, numconds, s, p, st, -1, false, false, i) == SfxFrom(ParseFrom(conds, p).value, s, st)
    decreases |conds| - p, 1
  {
    if conds[p] == '[' {
      SfxBoundaryGroup(conds, numconds, s, p, st, i);
    } else {
      SfxBoundaryPlain(conds, numconds, s, p, st, i);
    }
  }

  /** SfxBoundary at a bracket group. */
  lemma {:induction false} SfxBoundaryGroup(conds: seq<char>, numconds: int, s: seq<char>, p: nat, st: int, i: int)
    requires p < |conds| && conds[p] == '[' && ParseFrom(conds, p).Some?
    requires 0 <= st < |s|
    requires i + |ParseFrom(conds, p).value| <= numconds + 1
    ensures SfxLoop(conds, numconds, s, p, st, -1, false, false, i) == SfxFrom(ParseFrom(conds, p).value, s, st)
    decreases |conds| - p, 0
  {
    var A := ParseFrom(conds, p).value;
    var gneg := p + 1 < |conds| && conds[p + 1] == '^';
    var q := if gneg then p + 2 else p + 1;
    var e := SkipToClose(conds, q);
    var rest := ParseFrom(conds, e + 1).value;
    assert A == [Group(conds[q..e], gneg)] + rest;
    if gneg {
      assert SfxLoop(conds, numconds, s, p, st, -1, false, false, i) ==
        SfxLoop(conds, numconds, s, p + 2, st, st, true, false, i);
    }
    if |rest| > 0 {
      assert e + 1 < |conds|;
    }
    SfxGroupScan(conds, numconds, s, q, e, st, gneg, i);
    SfxFromCons(A, s, st);
    if e + 1 < |conds| && st - 1 >= 0 {
      SfxBoundary(conds, numconds, s, e + 1, st - 1, i + 1);
    }
  }

  /** SfxBoundary at a single character or `.`. */
  lemma {:induction false} SfxBoundaryPlain(conds: seq<char>, numconds: int, s: seq<char>, p: nat, st: int, i: int)
    requires p < |conds| && conds[p] != '[' && ParseFrom(conds, p).Some?
    requires 0 <= st < |s|
    requires i + |ParseFrom(conds, p).value| <= numconds + 1
    ensures SfxLoop(conds, numconds, s, p, st, -1, false, false, i) == SfxFrom(ParseFrom(conds, p).value, s, st)
    decreases |conds| - p, 0
  {
    var A := ParseFrom(conds, p).value;
    var c := conds[p];
    var rest := ParseFrom(conds, p + 1).value;
    assert A[1..] == rest;
    SfxFromCons(A, s, st);
    if p + 1 < |conds| {
      assert conds[p + 1] != ']';
    }
    if p + 1 < |conds| && st - 1 >= 0 {
      SfxBoundary(conds, numconds, s, p + 1, st - 1, if c == '.' then i else i + 1);
    }
  }

  /** Atoms A checked backward from s[st]. */
  predicate SfxFrom(A: seq<Atom>, s: seq<char>, st: int)
  {
    st + 1 >= |A| && forall k :: 0 <= k < |A| ==> 0 <= st - k < |s| && Holds(A[k], s[st - k])
  }

  lemma SfxFromCons(A: seq<Atom>, s: seq<char>, st: int)
    requires |A| > 0 && 0 <= st < |s|
    ensures SfxFrom(A, s, st) ==
      (Holds(A[0], s[st]) && (|A| == 1 || (st >= 1 && SfxFrom(A[1..], s, st - 1))))
  {
    if Holds(A[0], s[st]) && |A| > 1 && st >= 1 && SfxFrom(A[1..], s, st - 1) {
      forall k | 0 <= k < |A| ensures 0 <= st - k < |s| && Holds(A[k], s[st - k]) {
        if k > 0 {
          assert A[1..][k - 1] == A[k];
        }
      }
    }
    if SfxFrom(A, s, st) && |A| > 1 {
      forall k | 0 <= k < |A| - 1 ensures 0 <= st - 1 - k < |s| && Holds(A[1..][k], s[st - 1 - k]) {
        assert A[1..][k] == A[k + 1];
      }
    }
  }

  lemma SfxTail(A: seq<Atom>, s: seq<char>, st: int)
    requires st == |s| - 1
    ensures SfxFrom(A, s, st) == SfxHolds(A, s)
  {
  }

  /**
   * For stems at least as long as the pattern the prefix reading is the
   * plain one: atom k accepts character k.
   */
  lemma {:induction false} PfxRunLong(A: seq<Atom>, s: seq<char>, st: nat)
    requires st + |A| <= |s|
    ensures PfxRun(A, s, st) <==> forall k :: 0 <= k < |A| ==> Holds(A[k], s[st + k])
    decreases |A|
  {
    if A != [] {
      PfxRunLong(A[1..], s, st + 1);
      if PfxRun(A, s, st) {
        forall k | 0 <= k < |A| ensures Holds(A[k], s[st + k]) {
          if k > 0 {
            assert A[1..][k - 1] == A[k];
          }
        }
      }
    }
  }

  // ---------------------------------------------------------------------
  // condlen and encodeit

  /** The number of atoms condlen counts in s, starting in or out of a group. */
  function CountCond(s: seq<char>, group: bool): nat
  {
    if s == [] then 0
    else if s[0] == '[' then 1 + CountCond(s[1..], true)
    else if s[0] == ']' then CountCond(s[1..], false)
    else if !group then 1 + CountCond(s[1..], group)
    else CountCond(s[1..], group)
  }

  /** condlen: the number of atoms of a condition pattern. */
  method CondLen(s: seq<char>) returns (l: nat)
    ensures l == CountCond(s, false)
    ensures WellFormed(s) ==> l == |Parse(s).value|
  {
    l := 0;
    var group := false;
    var st := 0;
    while st != |s|
      invariant 0 <= st <= |s|
      invariant l + CountCond(s[st..], group) == CountCond(s, false)
    {
      assert s[st..] == [s[st]] + s[st + 1..];
      if s[st] == '[' {
        group := true;
        l := l + 1;
      } else if s[st] == ']' {
        group := false;
      } else if !group {
        l := l + 1;
      }
      st := st + 1;
    }
    if WellFormed(s) {
      CountAtoms(s, 0);
      assert s[0..] == s;
    }
  }

  lemma {:induction false} CountAtoms(s: seq<char>, p: nat)
    requires ParseFrom(s, p).Some?
    ensures p <= |s| ==> CountCond(s[p..], false) == |ParseFrom(s, p).value|
    decreases |s| - p, 1
  {
    if p < |s| {
      var c := s[p];
      assert s[p..] == [c] + s[p + 1..];
      if c == '[' {
        CountGroupAtom(s, p);
      } else {
        CountAtoms(s, p + 1);
      }
    }
  }

  /** A group counts as one atom, however many characters it lists. */
  lemma {:induction false} CountGroupAtom(s: seq<char>, p: nat)
    requires p < |s| && s[p] == '[' && ParseFrom(s, p).Some?
    ensures CountCond(s[p..], false) == |ParseFrom(s, p).value|
    decreases |s| - p, 0
  {
    var neg := p + 1 < |s| && s[p + 1] == '^';
    var q := if neg then p + 2 else p + 1;
    var e := SkipToClose(s, q);
    GroupParsed(s, p, neg, q, e);
    CountAtoms(s, e + 1);
    CountGroup(s, p + 1, e);
    assert s[p..] == [s[p]] + s[p + 1..];
    assert CountCond(s[p..], false) == 1 + CountCond(s[p + 1..], true);
  }

  /** What parsing a group at p leaves: its closing bracket at e, plain characters before it, and the rest parsed. */
  lemma GroupParsed(s: seq<char>, p: nat, neg: bool, q: nat, e: nat)
    requires p < |s| && s[p] == '[' && ParseFrom(s, p).Some?
    requires neg == (p + 1 < |s| && s[p + 1] == '^') && q == (if neg then p + 2 else p + 1) && e == SkipToClose(s, q)
    ensures p < e < |s| && s[e] == ']' && ParseFrom(s, e + 1).Some?
    ensures |ParseFrom(s, p).value| == 1 + |ParseFrom(s, e + 1).value|
    ensures forall k :: p + 1 <= k < e ==> s[k] != '[' && s[k] != ']'
  {
    assert PlainRun(s, q, e);
  }

  lemma {:induction false} CountGroup(s: seq<char>, j: nat, e: nat)
    requires j <= e < |s| && s[e] == ']'
    requires forall k :: j <= k < e ==> s[k] != '[' && s[k] != ']'
    ensures CountCond(s[j..], true) == CountCond(s[e + 1..], false)
    decreases e - j
  {
    assert s[j..] == [s[j]] + s[j + 1..];
    if j < e {
      CountGroup(s, j + 1, e);
    }
  }

  /**
   * encodeit: the pattern "." alone means "no condition"; otherwise the
   * pattern is kept and its atom count is truncated to a byte.
   */
  method EncodeIt(cs: seq<char>) returns (numconds: byte, conds: seq<char>)
    ensures cs == "." ==> numconds == 0 && conds == []
    ensures cs != "." ==> conds == cs && numconds == CountCond(cs, false) % 256
    ensures cs != "." && WellFormed(cs) && |Parse(cs).value| < 256 ==> numconds == |Parse(cs).value|
  {
    if |cs| != 1 || cs[0] != '.' {
      var l := CondLen(cs);
      numconds := l % 256;
      conds := cs;
    } else {
      numconds := 0;
      conds := [];
    }
  }
}
