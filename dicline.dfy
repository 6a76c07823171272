/**
 * The .dic file side of HashMgr.cs load_tables: the word count on the
 * first line, the table size it asks for (C# `int` arithmetic, which wraps
 * around), and the split of every further line into the word, its affix
 * flags after an unescaped `/`, and its morphological description after a
 * tab or before a `xx:` field.
 */
module DicLines {
  import opened Base
  import opened ByteView
  import opened ListUtils

  const COLON: byte := 58
  const TAB: byte := 9
  const SLASH: byte := 47
  const BACKSLASH: byte := 92

  /** The approximate number of user words a table keeps room for (HashMgr.cs USERWORD). */
  const USERWORD: int := 1000
  const N_EXTRA: int := 5 + USERWORD

  /** The line count above which a word count ten times the lines is rejected as ludicrous. */
  const LUDICROUS_MIN: int := 8192

  /** Two's complement wrap-around of an unchecked C# `int` result. */
  function Wrap32(x: int): (r: int)
    ensures INT_MIN <= r <= INT_MAX
    ensures INT_MIN <= x <= INT_MAX ==> r == x
    decreases if x > INT_MAX then x - INT_MAX else INT_MIN - x
  {
    if x > INT_MAX then Wrap32(x - 0x1_0000_0000)
    else if x < INT_MIN then Wrap32(x + 0x1_0000_0000)
    else x
  }

  /** An unchecked C# `int` addition. */
  function AddInt(a: int, b: int): (r: int)
    ensures INT_MIN <= r <= INT_MAX
  {
    Wrap32(a + b)
  }

  /** The wrapped value is the 32-bit value congruent to x modulo 2^32. */
  lemma {:induction false} Wrap32Congruent(x: int)
    ensures Wrap32(x) == (x - INT_MIN) % 0x1_0000_0000 + INT_MIN
    decreases if x > INT_MAX then x - INT_MAX else INT_MIN - x
  {
    if x > INT_MAX {
      Wrap32Congruent(x - 0x1_0000_0000);
    } else if x < INT_MIN {
      Wrap32Congruent(x + 0x1_0000_0000);
    }
  }

  // ---------------------------------------------------------------------
  // The first line and the table size

  /** The expected word count: atoi of the first blank-separated field of the first line, or 0. */
  function Expected(header: seq<byte>): (r: int)
    ensures INT_MIN <= r <= INT_MAX
    ensures NextCut(header, 0).NoField? ==> r == 0
  {
    match NextCut(header, 0)
    case NoField => 0
    case Cut(f, _) => AtoiBytes(header[f.start .. f.start + f.len])
  }

  /**
   * What load_tables does with the table before reading the words: give
   * up, allocate a fresh table (there was none), rehash into a larger one,
   * or keep the current one.
   */
  datatype Plan = Invalid | Allocate(size: int) | Grow(size: int) | Keep

  /** The table is rehashed when the words would fill it beyond 101%. */
  predicate Crowded(expected: int, length: int, wordcount: int)
  {
    Wrap32(Wrap32(expected + wordcount) * 100) > Wrap32(length * 101)
  }

  /** The size after the odd bump `if ((tablesize & 1) == 0) tablesize++`, then the decision. */
  function Decide(tablesize: int, expected: int, current: Option<int>, wordcount: int): Plan
  {
    var size := if tablesize % 2 == 0 then tablesize + 1 else tablesize;
    if current.None? then Allocate(size)
    else if Crowded(expected, current.value, wordcount) then Grow(size)
    else Keep
  }

  /**
   * The sizing of load_tables as written: `expected + nExtra` (or plus the
   * current length) is an `int` sum that wraps, and the guard compares the
   * wrapped sum with `int.MaxValue - 1`.
   */
  function PlanAsWritten(expected: int, current: Option<int>, wordcount: int): Plan
  {
    var tablesize := Wrap32(expected + (if current.None? then N_EXTRA else current.value));
    if expected <= 0 || tablesize >= INT_MAX - 1 then Invalid
    else Decide(tablesize, expected, current, wordcount)
  }

  /** A huge word count wraps the sum to a negative size and passes the guard: the allocation would throw. */
  lemma PlanWrapsNegative()
    ensures PlanAsWritten(INT_MAX, None, 0) == Allocate(-2147482643)
  {
  }

  /** The sizing with the guard applied to the true sum, as the guard evidently means. */
  function TablePlan(expected: int, current: Option<int>, wordcount: int): (r: Plan)
  {
    var tablesize := expected + (if current.None? then N_EXTRA else current.value);
    if expected <= 0 || tablesize >= INT_MAX - 1 then Invalid
    else Decide(tablesize, expected, current, wordcount)
  }

  /**
   * A word count that is not positive is refused; otherwise the size asked
   * for is odd, at least the count plus the room already there, and a
   * valid array length.
   */
  lemma TablePlanSound(expected: int, current: Option<int>, wordcount: int)
    requires current.Some? ==> current.value >= 0
    ensures expected <= 0 ==> TablePlan(expected, current, wordcount) == Invalid
    ensures var extra := if current.None? then N_EXTRA else current.value;
      match TablePlan(expected, current, wordcount)
      case Allocate(n) => current.None? && n % 2 == 1 && expected + extra <= n < INT_MAX
      case Grow(n) => current.Some? && n % 2 == 1 && expected + extra <= n < INT_MAX
      case Invalid => expected <= 0 || expected + extra >= INT_MAX - 1
      case Keep => current.Some? && !Crowded(expected, current.value, wordcount)
  {
  }

  /** Where the sum does not wrap, the corrected sizing is the written one. */
  lemma TablePlanAgrees(expected: int, current: Option<int>, wordcount: int)
    requires INT_MIN <= expected + (if current.None? then N_EXTRA else current.value) <= INT_MAX
    ensures TablePlan(expected, current, wordcount) == PlanAsWritten(expected, current, wordcount)
  {
  }

  /** A dictionary whose word count is more than ten times its lines and above 8192 is refused. */
  predicate Ludicrous(expected: int, lines: int)
  {
    expected > LUDICROUS_MIN && expected > Wrap32(lines * 10)
  }

  // ---------------------------------------------------------------------
  // Splitting a dictionary line

  /** A dictionary line taken apart: the word, the affix flag text and the morphological description. */
  datatype DicLine = DicLine(word: seq<byte>, flags: Option<seq<byte>>, morph: Option<seq<byte>>)

  /** The start of the run of blanks that ends just before position q (q itself when ts[q-1] is no blank). */
  function RunStart(ts: seq<byte>, q: int): (r: int)
    requires 0 <= q <= |ts|
    ensures 0 <= r <= q && (r > 0 ==> !Blank(ts[r - 1]))
    ensures forall k :: r <= k < q ==> Blank(ts[k])
  {
    if q > 0 && Blank(ts[q - 1]) then RunStart(ts, q - 1) else q
  }

  /**
   * The first loop of a line: a `:` with a blank three positions before
   * it starts a morphological field there; the description then starts
   * just after the first blank of that run, or is missing (-1) when only
   * blanks precede it. Any other `:` is passed over.
   */
  function ColonField(ts: seq<byte>, from: int): (r: int)
    requires 0 <= from <= |ts|
    ensures r == -1 || 2 <= r <= |ts|
    decreases |ts| - from
  {
    var p := IndexIn(ts, COLON, from, |ts| - from);
    if p < 0 then -1
    else if p > 3 && Blank(ts[p - 3]) then
      var q := RunStart(ts, p - 3);
      if q == 0 then -1 else q + 1
    else ColonField(ts, p + 1)
  }

  /** Where the description starts: after the first tab when that comes first, else the `:` field's start. */
  function MorphStart(ts: seq<byte>): (r: int)
    ensures r == -1 || 1 <= r <= |ts|
  {
    var c := ColonField(ts, 0);
    var t := IndexIn(ts, TAB, 0, |ts|);
    if t >= 0 && (c < 0 || t < c) then t + 1 else c
  }

  /** The loop state of the `/` search may point at a slash, or just past a leading one. */
  predicate SlashState(ts: seq<byte>, ap: int)
  {
    ap < 0 || (ap < |ts| && ts[ap] == SLASH) || (ap == 1 && |ts| >= 1 && ts[0] == SLASH)
  }

  /**
   * The `/` loop as written: `\/` is unescaped to `/` and the search goes
   * on; a slash at position 0 moves the position to 1 without searching
   * again, so the loop then stops there.
   */
  function SlashAsWritten(ts: seq<byte>, ap: int): (r: (seq<byte>, int))
    requires SlashState(ts, ap)
    ensures r.1 < 0 || r.1 <= |r.0|
    decreases |ts|, if ap == 0 then 1 else 0
  {
    if ap < 0 then (ts, ap)
    else if ap == 0 then SlashAsWritten(ts, 1)
    else if ts[ap - 1] != BACKSLASH then (ts, ap)
    else
      var t := ts[..ap - 1] + ts[ap..];
      SlashAsWritten(t, IndexIn(t, SLASH, ap, |t| - ap))
  }

  /** The `/` loop as intended: a slash at position 0 is a word character and the search resumes after it. */
  function Slash(ts: seq<byte>, ap: int): (r: (seq<byte>, int))
    requires ap < 0 || (ap < |ts| && ts[ap] == SLASH)
    ensures r.1 < 0 || (r.1 < |r.0| && r.0[r.1] == SLASH)
    decreases |ts|, if ap == 0 then 1 else 0
  {
    if ap < 0 then (ts, ap)
    else if ap == 0 then Slash(ts, IndexIn(ts, SLASH, 1, |ts| - 1))
    else if ts[ap - 1] != BACKSLASH then (ts, ap)
    else
      var t := ts[..ap - 1] + ts[ap..];
      Slash(t, IndexIn(t, SLASH, ap, |t| - ap))
  }

  /** The word part and its flags, once the `/` search has stopped at ap. */
  function Separate(body: seq<byte>, ap: int, morph: Option<seq<byte>>): DicLine
    requires ap < 0 || ap <= |body|
  {
    if ap >= 0 && ap != |body| then DicLine(body[..ap], Some(body[ap + 1..]), morph) else DicLine(body, None, morph)
  }

  /** The line without its description, and the description. */
  function Body(ts: seq<byte>): (seq<byte>, Option<seq<byte>>)
  {
    var d := MorphStart(ts);
    if d >= 0 then (ts[..d - 1], Some(ts[d..])) else (ts, None)
  }

  function SplitLineAsWritten(ts: seq<byte>): DicLine
  {
    var (body, morph) := Body(ts);
    var (b, ap) := SlashAsWritten(body, IndexIn(body, SLASH, 0, |body|));
    Separate(b, ap, morph)
  }

  function SplitLine(ts: seq<byte>): DicLine
  {
    var (body, morph) := Body(ts);
    var (b, ap) := Slash(body, IndexIn(body, SLASH, 0, |body|));
    Separate(b, ap, morph)
  }

  /** "/abc/XY": as written the word is "/" and the flag text "bc/XY", the `a` being lost. */
  lemma LeadingSlashAsWritten()
    ensures SplitLineAsWritten([SLASH, 97, 98, 99, SLASH, 88, 89]) == DicLine([SLASH], Some([98, 99, SLASH, 88, 89]), None)
  {
    var ts: seq<byte> := [SLASH, 97, 98, 99, SLASH, 88, 89];
    assert IndexIn(ts, COLON, 0, |ts|) == -1;
    assert ColonField(ts, 0) == -1;
    assert IndexIn(ts, TAB, 0, |ts|) == -1;
    assert Body(ts) == (ts, None);
    assert IndexIn(ts, SLASH, 0, |ts|) == 0;
    assert SlashAsWritten(ts, 0) == (ts, 1);
    assert ts[..1] == [SLASH] && ts[2..] == [98, 99, SLASH, 88, 89];
  }

  // ---------------------------------------------------------------------
  // The split undoes the composition of a line

  predicate NoBlank(s: seq<byte>)
  {
    forall k :: 0 <= k < |s| ==> !Blank(s[k])
  }

  predicate Plain(s: seq<byte>)
  {
    NoBlank(s) && forall k :: 0 <= k < |s| ==> s[k] != SLASH && s[k] != BACKSLASH
  }

  /** A dictionary line as it is written: the word, `/` and its flags, a tab and the description. */
  function Compose(w: seq<byte>, f: Option<seq<byte>>, m: Option<seq<byte>>): seq<byte>
  {
    Flagged(w, f) + (if m.Some? then [TAB] + m.value else [])
  }

  /** The word followed by `/` and its flags, if it has any. */
  function Flagged(w: seq<byte>, f: Option<seq<byte>>): seq<byte>
  {
    w + (if f.Some? then [SLASH] + f.value else [])
  }

  lemma FlaggedNoBlank(w: seq<byte>, f: Option<seq<byte>>)
    requires NoBlank(w) && (f.Some? ==> NoBlank(f.value))
    ensures NoBlank(Flagged(w, f))
  {
    var s := Flagged(w, f);
    forall k | 0 <= k < |s| ensures !Blank(s[k]) {
      if k < |w| {
        assert s[k] == w[k];
      } else if k > |w| {
        assert s[k] == f.value[k - |w| - 1];
      }
    }
  }

  /** Without blanks there is no `:` field. */
  lemma {:induction false} NoColonField(ts: seq<byte>, from: int)
    requires 0 <= from <= |ts| && NoBlank(ts)
    ensures ColonField(ts, from) == -1
    decreases |ts| - from
  {
    var p := IndexIn(ts, COLON, from, |ts| - from);
    if p >= 0 {
      NoColonField(ts, p + 1);
    }
  }

  /** A `:` field can only start after the first tab when nothing before the tab is blank. */
  lemma {:induction false} ColonAfterTab(ts: seq<byte>, from: int, t: int)
    requires 0 <= from <= |ts| && 0 < t < |ts| && ts[t] == TAB
    requires forall k :: 0 <= k < t ==> !Blank(ts[k])
    ensures ColonField(ts, from) == -1 || ColonField(ts, from) > t
    decreases |ts| - from
  {
    var p := IndexIn(ts, COLON, from, |ts| - from);
    if p >= 0 {
      if p > 3 && Blank(ts[p - 3]) {
        assert !Blank(ts[t - 1]);
      } else {
        ColonAfterTab(ts, p + 1, t);
      }
    }
  }

  /** A line without blanks before its tab: the description is what follows the tab. */
  lemma BodyComposed(pre: seq<byte>, m: Option<seq<byte>>)
    requires pre != [] && NoBlank(pre)
    ensures Body(pre + (if m.Some? then [TAB] + m.value else [])) == (pre, m)
  {
    if m.Some? {
      BodyTab(pre, m.value);
    } else {
      assert pre + [] == pre;
      NoColonField(pre, 0);
      assert IndexIn(pre, TAB, 0, |pre|) == -1;
    }
  }

  /** The tab after a part without blanks is the first one, and no `:` field comes before it. */
  lemma BodyTab(pre: seq<byte>, d: seq<byte>)
    requires pre != [] && NoBlank(pre)
    ensures Body(pre + ([TAB] + d)) == (pre, Some(d))
  {
    var ts := pre + ([TAB] + d);
    var t := |pre|;
    FirstTab(pre, d);
    ColonAfterTab(ts, 0, t);
    assert ts[..t] == pre && ts[t + 1..] == d;
  }

  /** The first tab of the part, the tab and the rest is the tab. */
  lemma FirstTab(pre: seq<byte>, d: seq<byte>)
    requires NoBlank(pre)
    ensures var ts := pre + ([TAB] + d);
      IndexIn(ts, TAB, 0, |ts|) == |pre| && ts[|pre|] == TAB && forall k :: 0 <= k < |pre| ==> !Blank(ts[k])
  {
    var ts := pre + ([TAB] + d);
    assert forall k :: 0 <= k < |pre| ==> ts[k] == pre[k] && ts[k] != TAB;
    assert ts[|pre|] == TAB;
  }

  /** The first `/` of a plain word with flags is the separator, and it is not escaped. */
  lemma SlashOfPlain(w: seq<byte>, f: Option<seq<byte>>)
    requires w != [] && Plain(w)
    ensures var body := Flagged(w, f);
      Slash(body, IndexIn(body, SLASH, 0, |body|)) == (body, if f.Some? then |w| else -1)
  {
    var body := Flagged(w, f);
    var ap := IndexIn(body, SLASH, 0, |body|);
    assert forall k :: 0 <= k < |w| ==> body[k] == w[k];
    if f.Some? {
      assert body[|w|] == SLASH;
      assert ap == |w|;
    } else {
      assert ap == -1;
    }
  }

  /**
   * Splitting a composed line gives back its parts, for a word of plain
   * bytes (no blank, slash or backslash) and a flag text without blanks.
   */
  lemma SplitCompose(w: seq<byte>, f: Option<seq<byte>>, m: Option<seq<byte>>)
    requires w != [] && Plain(w) && (f.Some? ==> NoBlank(f.value))
    ensures SplitLine(Compose(w, f, m)) == DicLine(w, f, m)
  {
    var body := Flagged(w, f);
    FlaggedNoBlank(w, f);
    BodyComposed(body, m);
    SlashOfPlain(w, f);
    if f.Some? {
      assert body[..|w|] == w && body[|w| + 1..] == f.value;
    }
  }

  /** With the corrected search, a leading `/` stays a word character, as in "/abc/XY". */
  lemma SplitLeadingSlash(w: seq<byte>, f: seq<byte>)
    requires Plain(w) && NoBlank(f)
    ensures SplitLine(Compose([SLASH] + w, Some(f), None)) == DicLine([SLASH] + w, Some(f), None)
  {
    var v := [SLASH] + w;
    var ts := Flagged(v, Some(f));
    assert Compose(v, Some(f), None) == ts;
    assert NoBlank(v) by {
      assert forall k :: 0 < k < |v| ==> v[k] == w[k - 1];
    }
    FlaggedNoBlank(v, Some(f));
    BodyComposed(ts, None);
    assert forall k :: 0 < k < |v| ==> ts[k] == w[k - 1];
    assert ts[0] == SLASH && ts[|v|] == SLASH;
    assert IndexIn(ts, SLASH, 0, |ts|) == 0;
    assert IndexIn(ts, SLASH, 1, |ts| - 1) == |v|;
    assert ts[|v| - 1] != BACKSLASH;
    assert Slash(ts, 0) == (ts, |v|);
    assert ts[..|v|] == v && ts[|v| + 1..] == f;
  }

  // ---------------------------------------------------------------------
  // The loops of load_tables over one line

  /** The blank run before q, walked back as the `for (dp_pos -= 3; ...)` loop does. */
  method BackOverBlanks(ts: seq<byte>, q: int) returns (r: int)
    requires 0 <= q <= |ts|
    ensures r == RunStart(ts, q)
  {
    r := q;
    while r > 0 && Blank(ts[r - 1])
      invariant 0 <= r <= q && RunStart(ts, r) == RunStart(ts, q)
    {
      r := r - 1;
    }
  }

  /** The `:` loop: the start of the description it finds, or -1. */
  method FindColonField(ts: seq<byte>) returns (dp: int)
    ensures dp == ColonField(ts, 0)
  {
    dp := 0;
    while true
      invariant 0 <= dp <= |ts| && ColonField(ts, dp) == ColonField(ts, 0)
      decreases |ts| - dp
    {
      dp := IndexIn(ts, COLON, dp, |ts| - dp);
      if dp < 0 {
        return;
      }
      if dp > 3 && Blank(ts[dp - 3]) {
        dp := BackOverBlanks(ts, dp - 3);
        if dp == 0 {
          dp := -1;
        } else {
          dp := dp + 1;
        }
        return;
      }
      dp := dp + 1;
    }
  }

  /** The `/` loop, with a leading `/` kept as a word character: the unescaped body and the separator. */
  method FindSlash(ts: seq<byte>) returns (b: seq<byte>, ap: int)
    ensures (b, ap) == Slash(ts, IndexIn(ts, SLASH, 0, |ts|))
  {
    b := ts;
    ap := IndexIn(b, SLASH, 0, |b|);
    while ap >= 0
      invariant ap < 0 || (ap < |b| && b[ap] == SLASH)
      invariant Slash(b, ap) == Slash(ts, IndexIn(ts, SLASH, 0, |ts|))
      decreases |b|, if ap == 0 then 1 else 0
    {
      if ap == 0 {
        ap := IndexIn(b, SLASH, 1, |b| - 1);
        continue;
      } else if b[ap - 1] != BACKSLASH {
        break;
      }
      b := b[..ap - 1] + b[ap..];
      ap := IndexIn(b, SLASH, ap, |b| - ap);
    }
  }

  /** One dictionary line taken apart as load_tables does it. */
  method SplitDicLine(ts: seq<byte>) returns (r: DicLine)
    ensures r == SplitLine(ts)
  {
    var dp := FindColonField(ts);
    var dp2 := IndexIn(ts, TAB, 0, |ts|);
    if dp2 >= 0 && (dp < 0 || dp2 < dp) {
      dp := dp2 + 1;
    }
    assert dp == MorphStart(ts);
    var body := ts;
    var morph: Option<seq<byte>> := None;
    if dp >= 0 {
      morph := Some(ts[dp..]);
      body := ts[..dp - 1];
    }
    assert (body, morph) == Body(ts);
    var b, ap := FindSlash(body);
    if ap >= 0 && ap != |b| {
      r := DicLine(b[..ap], Some(b[ap + 1..]), morph);
    } else {
      r := DicLine(b, None, morph);
    }
    assert r == Separate(b, ap, morph);
  }
}
