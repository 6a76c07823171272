/**
 * The minimal XML helpers of Hunspell.cs that read the requests of the
 * XML API (spellml): the value of a quoted attribute or of an element,
 * the position of an attribute inside a tag, and the values of a run of
 * repeated elements. Indexing past the end of the text and searching from
 * past its end throw in the source; here they give Throws.
 */
module SpellXml {
  import opened Base

  /** String.IndexOf(v, from) (ordinal): the first occurrence of v at or after from, or -1. */
  function IndexFrom(v: string, s: string, from: nat): (r: int)
    ensures r == -1 || (from <= r && r + |v| <= |s|)
    decreases |s| - from
  {
    if from + |v| > |s| then -1
    else if s[from..from + |v|] == v then from
    else IndexFrom(v, s, from + 1)
  }

  /** IndexFrom is the first occurrence. */
  lemma {:induction false} IndexFromFirst(v: string, s: string, from: nat)
    ensures IndexFrom(v, s, from) == FirstOccurrence(v, s, from)
    decreases |s| - from
  {
    if from + |v| <= |s| && s[from..from + |v|] != v {
      IndexFromFirst(v, s, from + 1);
    }
  }

  /** The longest prefix of s without e. */
  function Until(s: string, e: char): string
  {
    if s == [] || s[0] == e then [] else [s[0]] + Until(s[1..], e)
  }

  /** Until gives a prefix without e, followed by e or by the end of s. */
  lemma {:induction false} UntilShape(s: string, e: char)
    ensures IsPrefix(Until(s, e), s) && e !in Until(s, e)
    ensures |Until(s, e)| < |s| ==> s[|Until(s, e)|] == e
  {
    if s != [] && s[0] != e {
      UntilShape(s[1..], e);
    }
  }

  /** StringBuilder.Replace(pat, rep): every occurrence of pat, from left to right and without overlap, replaced by rep. */
  function ReplaceAll(s: string, pat: string, rep: string): string
    requires |pat| > 0
  {
    if |s| < |pat| then s
    else if s[..|pat|] == pat then rep + ReplaceAll(s[|pat|..], pat, rep)
    else [s[0]] + ReplaceAll(s[1..], pat, rep)
  }

  /** The two entities get_xml_par decodes, "&lt;" first. */
  function Unescape(s: string): string
  {
    ReplaceAll(ReplaceAll(s, "&lt;", "<"), "&amp;", "&")
  }

  /** The escaping those two replacements undo. */
  function Escape(s: string): (r: string)
    ensures '<' !in r
  {
    if s == [] then []
    else (if s[0] == '&' then "&amp;" else if s[0] == '<' then "&lt;" else [s[0]]) + Escape(s[1..])
  }

  /**
   * get_xml_par(par, pos): "" for a negative position or a start that is
   * neither a quote nor `>`; else the text up to the matching quote (a
   * value after `>` ends at `<`), unescaped.
   */
  function XmlPar(par: string, pos: int): Res<string>
  {
    if pos < 0 then Ok([])
    else if pos >= |par| then Throws
    else if par[pos] == '>' then Ok(Unescape(Until(par[pos + 1..], '<')))
    else if par[pos] == '\'' || par[pos] == '"' then Ok(Unescape(Until(par[pos + 1..], par[pos])))
    else Ok([])
  }

  /** get_xml_par: the loop that copies the value into a buffer. */
  method GetXmlPar(par: string, pos: int) returns (r: Res<string>)
    ensures r == XmlPar(par, pos)
  {
    if pos < 0 {
      return Ok([]);
    }
    if pos >= |par| {
      return Throws;
    }
    var end := par[pos];
    if end == '>' {
      end := '<';
    } else if end != '\'' && end != '"' {
      return Ok([]);
    }
    var dest := CopyUntil(par, pos + 1, end);
    ParValue(par, pos, end, dest);
    return Ok(Unescape(dest));
  }

  /** The copying loop: the characters from `from` up to the first end. */
  method CopyUntil(par: string, from: nat, end: char) returns (dest: string)
    requires from <= |par|
    ensures dest == Until(par[from..], end)
  {
    dest := [];
    var i := from;
    while i < |par| && par[i] != end
      invariant from <= i <= |par|
      invariant Until(par[from..], end) == dest + Until(par[i..], end)
    {
      UntilStep(par, i, end);
      dest := dest + [par[i]];
      i := i + 1;
    }
    UntilEnd(par, i, end);
    assert dest + [] == dest;
  }

  lemma ParValue(par: string, pos: nat, end: char, raw: string)
    requires pos < |par| && (par[pos] == '>' || par[pos] == '\'' || par[pos] == '"')
    requires end == (if par[pos] == '>' then '<' else par[pos])
    requires raw == Until(par[pos + 1..], end)
    ensures XmlPar(par, pos) == Ok(Unescape(raw))
  {
  }

  lemma UntilEnd(s: string, i: nat, e: char)
    requires i <= |s| && (i == |s| || s[i] == e)
    ensures Until(s[i..], e) == []
  {
  }

  lemma UntilStep(s: string, i: nat, e: char)
    requires i < |s| && s[i] != e
    ensures Until(s[i..], e) == [s[i]] + Until(s[i + 1..], e)
  {
    assert s[i..][1..] == s[i + 1..];
  }

  lemma {:induction false} ReplaceSkip(c: char, x: string, pat: string, rep: string)
    requires |pat| > 0 && c != pat[0]
    ensures ReplaceAll([c] + x, pat, rep) == [c] + ReplaceAll(x, pat, rep)
  {
    var s := [c] + x;
    assert s[1..] == x;
    if |s| < |pat| {
      if |x| >= |pat| {
        assert false;
      }
    }
  }

  lemma {:induction false} ReplaceHit(pat: string, x: string, rep: string)
    requires |pat| > 0
    ensures ReplaceAll(pat + x, pat, rep) == rep + ReplaceAll(x, pat, rep)
  {
    assert (pat + x)[..|pat|] == pat;
    assert (pat + x)[|pat|..] == x;
  }

  /** Escape with only the `&` done: what the first replacement leaves of Escape(s). */
  function EscapeAmp(s: string): string
  {
    if s == [] then []
    else (if s[0] == '&' then "&amp;" else [s[0]]) + EscapeAmp(s[1..])
  }

  /** Text holding no first character of pat passes through the replacement. */
  lemma {:induction false} ReplaceSkipAll(t: string, x: string, pat: string, rep: string)
    requires |pat| > 0 && pat[0] !in t
    ensures ReplaceAll(t + x, pat, rep) == t + ReplaceAll(x, pat, rep)
  {
    if t != [] {
      assert t + x == [t[0]] + (t[1..] + x);
      ReplaceSkip(t[0], t[1..] + x, pat, rep);
      ReplaceSkipAll(t[1..], x, pat, rep);
      assert t == [t[0]] + t[1..];
    } else {
      assert t + x == x;
    }
  }

  lemma ReplaceMiss(s: string, pat: string, rep: string)
    requires |pat| > 0 && |s| >= |pat| && s[..|pat|] != pat
    ensures ReplaceAll(s, pat, rep) == [s[0]] + ReplaceAll(s[1..], pat, rep)
  {
  }

  lemma AmpNotLt(rest: string)
    ensures ReplaceAll("&amp;" + rest, "&lt;", "<") == "&amp;" + ReplaceAll(rest, "&lt;", "<")
  {
    var u := "&amp;" + rest;
    assert u[..4] != "&lt;" by { assert u[..4][1] == 'a'; }
    ReplaceMiss(u, "&lt;", "<");
    assert u[1..] == "amp;" + rest;
    ReplaceSkipAll("amp;", rest, "&lt;", "<");
  }

  lemma {:induction false} UndoLt(s: string)
    ensures ReplaceAll(Escape(s), "&lt;", "<") == EscapeAmp(s)
  {
    if s != [] {
      UndoLt(s[1..]);
      var rest := Escape(s[1..]);
      if s[0] == '<' {
        ReplaceHit("&lt;", rest, "<");
      } else if s[0] == '&' {
        AmpNotLt(rest);
      } else {
        ReplaceSkip(s[0], rest, "&lt;", "<");
      }
    }
  }

  lemma {:induction false} UndoAmp(s: string)
    ensures ReplaceAll(EscapeAmp(s), "&amp;", "&") == s
  {
    if s != [] {
      UndoAmp(s[1..]);
      if s[0] == '&' {
        ReplaceHit("&amp;", EscapeAmp(s[1..]), "&");
      } else {
        ReplaceSkip(s[0], EscapeAmp(s[1..]), "&amp;", "&");
      }
      assert s == [s[0]] + s[1..];
    }
  }

  /** Unescape undoes Escape: any text escaped this way reads back unchanged. */
  lemma EscapeRoundTrip(s: string)
    ensures Unescape(Escape(s)) == s
  {
    UndoLt(s);
    UndoAmp(s);
  }

  /** Until stops at the first e after a text without e. */
  lemma {:induction false} UntilStops(v: string, e: char, rest: string)
    requires e !in v
    ensures Until(v + [e] + rest, e) == v
  {
    if v != [] {
      assert (v + [e] + rest)[1..] == v[1..] + [e] + rest;
      UntilStops(v[1..], e, rest);
    }
  }

  /** An escaped element value after `>` and before `<` reads back unchanged. */
  lemma ElementValue(pre: string, v: string, post: string)
    ensures XmlPar(pre + ">" + Escape(v) + "<" + post, |pre|) == Ok(v)
  {
    var par := pre + ">" + Escape(v) + "<" + post;
    assert par[|pre|] == '>';
    assert par[|pre| + 1..] == Escape(v) + ['<'] + post;
    UntilStops(Escape(v), '<', post);
    EscapeRoundTrip(v);
  }

  /** An escaped attribute value without the quote, between quotes, reads back unchanged. */
  lemma QuotedValue(pre: string, q: char, v: string, post: string)
    requires q == '\'' || q == '"'
    requires q !in Escape(v)
    ensures XmlPar(pre + [q] + Escape(v) + [q] + post, |pre|) == Ok(v)
  {
    var par := pre + [q] + Escape(v) + [q] + post;
    assert par[|pre|] == q;
    assert par[|pre| + 1..] == Escape(v) + [q] + post;
    UntilStops(Escape(v), q, post);
    EscapeRoundTrip(v);
  }

  /** attr found at f counts only after a space or a newline; at 0 the source reads s[-1] and throws. */
  predicate Qualified(s: string, f: int)
    requires 0 < f <= |s|
  {
    s[f - 1] == ' ' || s[f - 1] == '\n'
  }

  /** The attribute scan from pos, inside a tag ending at endpos. */
  function AttrScan(s: string, pos: nat, endpos: int, attr: string): (r: Res<int>)
    requires |attr| > 0 && pos <= |s|
    ensures r.Ok? && r.value >= 0 ==> |attr| < r.value <= |s|
    decreases |s| - pos
  {
    var f := IndexFrom(attr, s, pos);
    if f < 0 || f >= endpos then Ok(-1)
    else if f == 0 then Throws
    else if Qualified(s, f) then Ok(f + |attr|)
    else AttrScan(s, f + |attr|, endpos, attr)
  }

  /**
   * get_xml_pos(s, pos, attr): -1 for a negative position; without attr
   * the first `>` from pos; else the position just after the first
   * qualified occurrence of attr the scan meets before that `>`.
   */
  function XmlPos(s: string, pos: int, attr: Option<string>): Res<int>
    requires attr.Some? ==> |attr.value| > 0
  {
    if pos < 0 then Ok(-1)
    else if pos > |s| then Throws
    else
      var endpos := FirstOccurrence(">", s, pos);
      if attr.None? then Ok(endpos) else AttrScan(s, pos, endpos, attr.value)
  }

  /** get_xml_pos with its scanning loop. */
  method GetXmlPos(s: string, pos: int, attr: Option<string>) returns (r: Res<int>)
    requires attr.Some? ==> |attr.value| > 0
    ensures r == XmlPos(s, pos, attr)
  {
    if pos < 0 {
      return Ok(-1);
    }
    if pos > |s| {
      return Throws;
    }
    var endpos := FirstOccurrence(">", s, pos);
    if attr.None? {
      return Ok(endpos);
    }
    r := ScanAttr(s, pos, endpos, attr.value);
  }

  lemma ScanHere(s: string, p: nat, endpos: int, attr: string, f: int)
    requires |attr| > 0 && p <= |s| && f == IndexFrom(attr, s, p)
    ensures f < 0 || f >= endpos ==> AttrScan(s, p, endpos, attr) == Ok(-1)
    ensures 0 == f < endpos ==> AttrScan(s, p, endpos, attr) == Throws
    ensures 0 < f < endpos && Qualified(s, f) ==> AttrScan(s, p, endpos, attr) == Ok(f + |attr|)
    ensures 0 < f < endpos && !Qualified(s, f) ==> AttrScan(s, p, endpos, attr) == AttrScan(s, f + |attr|, endpos, attr)
  {
  }

  lemma ScanSkip(s: string, p: nat, endpos: int, attr: string, f: int)
    requires |attr| > 0 && p <= |s| && f == IndexFrom(attr, s, p)
    requires 0 < f < endpos && !Qualified(s, f)
    ensures AttrScan(s, p, endpos, attr) == AttrScan(s, f + |attr|, endpos, attr)
  {
  }

  /** The loop of get_xml_pos: the next occurrence of attr until one is qualified. */
  method ScanAttr(s: string, pos: nat, endpos: int, attr: string) returns (r: Res<int>)
    requires |attr| > 0 && pos <= |s|
    ensures r == AttrScan(s, pos, endpos, attr)
  {
    hide AttrScan;
    var p := pos;
    ghost var goal := AttrScan(s, pos, endpos, attr);
    while true
      invariant p <= |s|
      invariant AttrScan(s, p, endpos, attr) == goal
      decreases |s| - p
    {
      var f := IndexFrom(attr, s, p);
      ScanHere(s, p, endpos, attr, f);
      if f < 0 || f >= endpos {
        return Ok(-1);
      }
      if f == 0 {
        return Throws;
      }
      if s[f - 1] == ' ' || s[f - 1] == '\n' {
        return Ok(f + |attr|);
      }
      p := f + |attr|;
    }
  }

  /** attr overlaps no shifted copy of itself (true of "type=" and the other attribute names). */
  predicate NoSelfOverlap(attr: string)
  {
    forall k {:trigger attr[k..]} :: 0 < k < |attr| ==> !IsPrefix(attr[k..], attr)
  }

  lemma OverlapShift(s: string, attr: string, f: nat, q: nat)
    requires NoSelfOverlap(attr) && |attr| > 0
    requires OccursAt(attr, s, f) && f < q < f + |attr|
    ensures !OccursAt(attr, s, q)
  {
    var k := q - f;
    if q + |attr| <= |s| {
      assert attr[k..] == s[q..f + |attr|];
      assert !IsPrefix(attr[k..], attr);
    }
  }

  /** No occurrence of attr in [lo, hi) is qualified. */
  predicate Unqualified(s: string, attr: string, lo: int, hi: int)
  {
    forall q :: lo <= q < hi && 0 < q && OccursAt(attr, s, q) ==> !Qualified(s, q)
  }

  /** The occurrences the scan steps over after an unqualified one cannot be qualified either. */
  lemma SkipSound(s: string, attr: string, pos: nat, f: nat, hi: int)
    requires NoSelfOverlap(attr) && |attr| > 0 && pos <= f && f + |attr| <= hi
    requires f == IndexFrom(attr, s, pos) && 0 < f && !Qualified(s, f)
    requires Unqualified(s, attr, f + |attr|, hi)
    ensures Unqualified(s, attr, pos, hi)
  {
    IndexFromFirst(attr, s, pos);
    forall q | pos <= q < hi && 0 < q && OccursAt(attr, s, q) ensures !Qualified(s, q) {
      if f < q < f + |attr| {
        OverlapShift(s, attr, f, q);
      }
    }
  }

  /**
   * For an attribute name that cannot overlap itself, a scan reporting -1
   * has passed no qualified occurrence before the tag's end.
   */
  lemma {:induction false} AttrScanNone(s: string, pos: nat, endpos: int, attr: string)
    requires |attr| > 0 && pos <= |s| && NoSelfOverlap(attr)
    requires AttrScan(s, pos, endpos, attr) == Ok(-1)
    ensures Unqualified(s, attr, pos, endpos)
    decreases |s| - pos
  {
    var f := IndexFrom(attr, s, pos);
    IndexFromFirst(attr, s, pos);
    if f >= 0 && f < endpos {
      AttrScanNone(s, f + |attr|, endpos, attr);
      if f + |attr| <= endpos {
        SkipSound(s, attr, pos, f, endpos);
      } else {
        forall q | pos <= q < endpos && 0 < q && OccursAt(attr, s, q) ensures !Qualified(s, q) {
          if f < q {
            OverlapShift(s, attr, f, q);
          }
        }
      }
    }
  }

  /**
   * For an attribute name that cannot overlap itself, a position found is
   * just after the first qualified occurrence from pos, which lies before
   * the tag's end.
   */
  lemma {:induction false} AttrScanFound(s: string, pos: nat, endpos: int, attr: string, v: int)
    requires |attr| > 0 && pos <= |s| && NoSelfOverlap(attr)
    requires AttrScan(s, pos, endpos, attr) == Ok(v) && v >= 0
    ensures pos <= v - |attr| < endpos && 0 < v - |attr|
    ensures OccursAt(attr, s, v - |attr|) && Qualified(s, v - |attr|)
    ensures Unqualified(s, attr, pos, v - |attr|)
    decreases |s| - pos
  {
    var f := IndexFrom(attr, s, pos);
    assert 0 < f < endpos;
    if Qualified(s, f) {
      IndexFromFirst(attr, s, pos);
      assert v == f + |attr|;
      assert Unqualified(s, attr, pos, f);
    } else {
      ScanSkip(s, pos, endpos, attr, f);
      AttrScanFound(s, f + |attr|, endpos, attr, v);
      SkipSound(s, attr, pos, f, v - |attr|);
    }
  }

  /** check_xml_par(q, pos, attr, value): the attribute's value is value. */
  function CheckXmlPar(q: string, pos: int, attr: string, value: string): (r: Res<bool>)
    requires |attr| > 0
    ensures r == Ok(true) ==> exists p :: XmlPos(q, pos, Some(attr)) == Ok(p) && XmlPar(q, p) == Ok(value)
  {
    match XmlPos(q, pos, Some(attr))
    case Throws => Throws
    case Ok(p) =>
      match XmlPar(q, p)
      case Throws => Throws
      case Ok(cw) => Ok(cw == value)
  }

  /** The values of the list elements from pos on: each tag occurrence gives the value after its last character; an empty one ends the list. */
  function XmlListFrom(list: string, pos: nat, tag: string): (r: Res<seq<string>>)
    ensures r.Ok? ==> forall i :: 0 <= i < |r.value| ==> |r.value[i]| > 0
    decreases |list| + 1 - pos
  {
    if pos > |list| then Throws
    else
      var f := IndexFrom(tag, list, pos);
      if f < 0 then Ok([])
      else
        match XmlPar(list, f + |tag| - 1)
        case Throws => Throws
        case Ok(cw) =>
          if cw == [] then Ok([])
          else
            match XmlListFrom(list, f + 1, tag)
            case Throws => Throws
            case Ok(rest) => Ok([cw] + rest)
  }

  /** get_xml_list(list, pos, tag). */
  function XmlList(list: string, pos: int, tag: string): Res<seq<string>>
  {
    if pos < 0 then Ok([]) else XmlListFrom(list, pos, tag)
  }

  /** The values collected so far, ahead of those still to come. */
  function Prepend(done: seq<string>, r: Res<seq<string>>): Res<seq<string>>
  {
    match r
    case Throws => Throws
    case Ok(rest) => Ok(done + rest)
  }

  lemma ListStep(list: string, p: nat, tag: string, f: int, cw: string)
    requires p <= |list| && f == IndexFrom(tag, list, p) && f >= 0
    requires XmlPar(list, f + |tag| - 1) == Ok(cw) && cw != []
    ensures XmlListFrom(list, p, tag) == Prepend([cw], XmlListFrom(list, f + 1, tag))
  {
  }

  lemma ListStop(list: string, p: nat, tag: string, f: int)
    requires p <= |list| && f == IndexFrom(tag, list, p) && f >= 0
    requires XmlPar(list, f + |tag| - 1) == Ok([])
    ensures XmlListFrom(list, p, tag) == Ok([])
  {
  }

  /** The ways the list ends before a value is read: past the text, no further tag, or a value that throws. */
  lemma ListEnds(list: string, p: nat, tag: string)
    ensures p > |list| ==> XmlListFrom(list, p, tag) == Throws
    ensures p <= |list| && IndexFrom(tag, list, p) < 0 ==> XmlListFrom(list, p, tag) == Ok([])
    ensures p <= |list| && IndexFrom(tag, list, p) >= 0 && XmlPar(list, IndexFrom(tag, list, p) + |tag| - 1).Throws? ==>
      XmlListFrom(list, p, tag) == Throws
  {
  }

  lemma PrependOne(done: seq<string>, cw: string, r: Res<seq<string>>)
    ensures Prepend(done, Prepend([cw], r)) == Prepend(done + [cw], r)
  {
    if r.Ok? {
      assert done + ([cw] + r.value) == (done + [cw]) + r.value;
    }
  }

  /** One round of the get_xml_list loop: the list ends (normally or by an exception), or one more value is read. */
  datatype Step = Done(r: Res<seq<string>>) | More(cw: string, next: nat)

  /** The body of the get_xml_list loop at position p. */
  method ListNext(list: string, p: nat, tag: string) returns (st: Step)
    ensures st.Done? ==> (st.r == Throws || st.r == Ok([])) && XmlListFrom(list, p, tag) == st.r
    ensures st.More? ==> p < st.next <= |list| + 1 && XmlListFrom(list, p, tag) == Prepend([st.cw], XmlListFrom(list, st.next, tag))
  {
    ListEnds(list, p, tag);
    hide XmlListFrom, XmlPar;
    if p > |list| {
      return Done(Throws);
    }
    var f := IndexFrom(tag, list, p);
    if f < 0 {
      return Done(Ok([]));
    }
    var cw := GetXmlPar(list, f + |tag| - 1);
    if cw.Throws? {
      return Done(Throws);
    }
    if cw.value == [] {
      ListStop(list, p, tag, f);
      return Done(Ok([]));
    }
    ListStep(list, p, tag, f, cw.value);
    return More(cw.value, f + 1);
  }

  /** get_xml_list with its loop collecting the values. */
  method GetXmlList(list: string, pos: int, tag: string) returns (r: Res<seq<string>>)
    ensures r == XmlList(list, pos, tag)
  {
    if pos < 0 {
      return Ok([]);
    }
    var slst := [];
    var p: nat := pos;
    assert XmlList(list, pos, tag) == Prepend(slst, XmlListFrom(list, p, tag)) by {
      match XmlListFrom(list, p, tag)
      case Throws =>
      case Ok(v) => assert slst + v == v;
    }
    while true
      invariant XmlList(list, pos, tag) == Prepend(slst, XmlListFrom(list, p, tag))
      decreases |list| + 1 - p
    {
      var st := ListNext(list, p, tag);
      if st.Done? {
        if st.r.Throws? {
          return Throws;
        }
        assert slst + [] == slst;
        return Ok(slst);
      }
      PrependOne(slst, st.cw, XmlListFrom(list, st.next, tag));
      slst := slst + [st.cw];
      p := st.next;
    }
  }

  /** A non-empty tag searched from inside the text never makes the list throw. */
  lemma {:induction false} ListNeverThrows(list: string, pos: nat, tag: string)
    requires |tag| > 0 && pos <= |list|
    ensures XmlListFrom(list, pos, tag).Ok?
    decreases |list| + 1 - pos
  {
    var f := IndexFrom(tag, list, pos);
    if f >= 0 {
      ListNeverThrows(list, f + 1, tag);
    }
  }
}
