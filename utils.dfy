/**
 * Utils.cs: list and line helpers (uniqlist, line_uniq, line_uniq_app),
 * morphological field extraction (copy_field, fieldlen) and atoi.
 * Lines are the non-empty pieces of a text between '\n' separators, as
 * String.Split with RemoveEmptyEntries yields them.
 */
module ListUtils {
  import opened Base
  import opened StrHelper

  const REC: char := '\n'
  /** MORPH.TAG_LEN: the length of every morphological tag such as "st:". */
  const TAG_LEN: nat := 3

  /** No element occurs twice. */
  predicate Distinct<T(==)>(s: seq<T>)
  {
    forall i, j :: 0 <= i < j < |s| ==> s[i] != s[j]
  }

  /** The elements of s, each kept at its first occurrence, in order. */
  function Uniq<T(==)>(s: seq<T>): seq<T>
  {
    if s == [] then []
    else
      var u := Uniq(s[..|s| - 1]);
      if s[|s| - 1] in u then u else u + [s[|s| - 1]]
  }

  /** The position of the first occurrence of x in s. */
  function Pos<T(==)>(s: seq<T>, x: T): (r: nat)
    requires x in s
    ensures r < |s| && s[r] == x && x !in s[..r]
  {
    if s[0] == x then 0
    else
      assert x in s[1..];
      var t := Pos(s[1..], x);
      assert s[..t + 1] == [s[0]] + s[1..][..t];
      t + 1
  }

  /** Uniq keeps exactly the elements of s, without repetitions. */
  lemma {:induction false} UniqElements<T>(s: seq<T>)
    ensures forall x :: x in Uniq(s) <==> x in s
    ensures Distinct(Uniq(s))
  {
    if s != [] {
      var p := s[..|s| - 1];
      UniqElements(p);
      assert s == p + [s[|s| - 1]];
    }
  }

  /** Uniq lists the elements in the order of their first occurrences in s. */
  lemma {:induction false} UniqOrdered<T>(s: seq<T>)
    ensures forall x :: x in Uniq(s) ==> x in s
    ensures forall m1, m2 :: 0 <= m1 < m2 < |Uniq(s)| ==> Pos(s, Uniq(s)[m1]) < Pos(s, Uniq(s)[m2])
  {
    UniqElements(s);
    if s != [] {
      var p, y := s[..|s| - 1], s[|s| - 1];
      var u := Uniq(p);
      UniqOrdered(p);
      UniqElements(p);
      assert s == p + [y];
      forall x | x in p
        ensures Pos(s, x) == Pos(p, x)
      {
        SamePos(s, p, x);
      }
      if y !in u {
        assert Uniq(s) == u + [y];
        OrderedSnoc(s, p, u, y);
      }
    }
  }

  /** A new last element comes after every element already listed, in first-occurrence order. */
  lemma OrderedSnoc<T>(s: seq<T>, p: seq<T>, u: seq<T>, y: T)
    requires s == p + [y] && y !in p
    requires forall x :: x in u ==> x in p
    requires forall x :: x in p ==> Pos(s, x) == Pos(p, x)
    requires forall m1, m2 :: 0 <= m1 < m2 < |u| ==> Pos(p, u[m1]) < Pos(p, u[m2])
    ensures forall m1, m2 :: 0 <= m1 < m2 < |u + [y]| ==> Pos(s, (u + [y])[m1]) < Pos(s, (u + [y])[m2])
  {
    assert Pos(s, y) == |s| - 1;
    assert forall m :: 0 <= m < |u| ==> (u + [y])[m] == u[m] && Pos(s, u[m]) < |p|;
  }

  /** A first occurrence inside a prefix is the first occurrence in the whole sequence. */
  lemma SamePos<T>(s: seq<T>, p: seq<T>, x: T)
    requires x in p && |p| <= |s| && p == s[..|p|]
    ensures x in s && Pos(s, x) == Pos(p, x)
  {
    var a, b := Pos(s, x), Pos(p, x);
    assert s[b] == x && s[..b] == p[..b];
  }

  /** Uniq does nothing to a sequence without repetitions. */
  lemma {:induction false} UniqDistinct<T>(s: seq<T>)
    requires Distinct(s)
    ensures Uniq(s) == s
  {
    if s != [] {
      var p := s[..|s| - 1];
      assert Distinct(p);
      UniqDistinct(p);
      assert s == p + [s[|s| - 1]];
    }
  }

  /** Uniq removes something exactly when s repeats an element. */
  lemma UniqShorter<T>(s: seq<T>)
    ensures |Uniq(s)| == |s| <==> Distinct(s)
  {
    UniqElements(s);
    if Distinct(s) {
      UniqDistinct(s);
    } else {
      UniqLength(s);
      var i, j :| 0 <= i < j < |s| && s[i] == s[j];
      UniqDrops(s, i, j);
    }
  }

  lemma {:induction false} UniqLength<T>(s: seq<T>)
    ensures |Uniq(s)| <= |s|
  {
    if s != [] {
      UniqLength(s[..|s| - 1]);
    }
  }

  /** A repeated element makes Uniq strictly shorter. */
  lemma {:induction false} UniqDrops<T>(s: seq<T>, i: nat, j: nat)
    requires i < j < |s| && s[i] == s[j]
    ensures |Uniq(s)| < |s|
  {
    var p := s[..|s| - 1];
    UniqLength(p);
    if j == |s| - 1 {
      UniqElements(p);
      assert s[i] == p[i];
    } else {
      UniqDrops(p, i, j);
    }
  }

  /** `IndexOf(x, 0, j)` over the list: whether x occurs among the first j elements. */
  method IndexInPrefix<T(==)>(a: array<T>, x: T, j: nat) returns (r: int)
    requires j <= a.Length
    ensures r < 0 <==> x !in a[..j]
    ensures r >= 0 ==> r < j && a[r] == x
  {
    var k := 0;
    while k < j
      invariant k <= j && x !in a[..k]
    {
      if a[k] == x {
        return k;
      }
      assert a[..k + 1] == a[..k] + [a[k]];
      k := k + 1;
    }
    return -1;
  }

  /**
   * uniqlist: compacts the list in place so that its first n elements are
   * each element at its first occurrence, in order; the list is then cut to n.
   */
  method UniqInPlace<T(==)>(a: array<T>) returns (n: nat)
    modifies a
    ensures n <= a.Length && a[..n] == Uniq(old(a[..]))
  {
    ghost var s := a[..];
    if a.Length < 2 {
      assert a.Length == 1 ==> s == [] + [s[0]];
      return a.Length;
    }
    var j := 1;
    var i := 1;
    assert s[..1] == [] + [s[0]];
    while i < a.Length
      invariant 1 <= j <= i <= a.Length
      invariant a[..j] == Uniq(s[..i]) && forall k :: i <= k < a.Length ==> a[k] == s[k]
    {
      var x := a[i];
      assert x == s[i];
      assert s[..i + 1][..i] == s[..i];
      var k := IndexInPrefix(a, x, j);
      if k < 0 {
        if j < i {
          a[j] := x;
        }
        assert a[..j + 1] == a[..j] + [x];
        j := j + 1;
      }
      i := i + 1;
    }
    assert s[..a.Length] == s;
    return j;
  }

  /** The position of the first c in t, or -1. */
  function CharPos(t: string, c: char): (r: int)
    ensures r == -1 ==> c !in t
    ensures r != -1 ==> 0 <= r < |t| && t[r] == c && c !in t[..r]
  {
    if c in t then Pos(t, c) else -1
  }

  /** `text.Split(new[] { c }, RemoveEmptyEntries)`: the non-empty pieces between the c's. */
  function Pieces(t: string, c: char): seq<string>
    decreases |t|
  {
    var i := CharPos(t, c);
    if i < 0 then (if t == [] then [] else [t])
    else (if i == 0 then [] else [t[..i]]) + Pieces(t[i + 1..], c)
  }

  function Lines(t: string): seq<string>
  {
    Pieces(t, REC)
  }

  /** `string.Join(sep, ls)`. */
  function Join(ls: seq<string>, sep: string): string
  {
    if ls == [] then [] else if |ls| == 1 then ls[0] else ls[0] + sep + Join(ls[1..], sep)
  }

  /** Each piece is non-empty and free of the separator. */
  predicate Piece(p: string, c: char)
  {
    p != [] && c !in p
  }

  lemma {:induction false} PiecesShape(t: string, c: char)
    ensures forall k :: 0 <= k < |Pieces(t, c)| ==> Piece(Pieces(t, c)[k], c)
    decreases |t|
  {
    var i := CharPos(t, c);
    if i >= 0 {
      PiecesShape(t[i + 1..], c);
    }
  }

  /** A piece followed by its separator is split off first. */
  lemma PiecesStep(t: string, a: string, b: string, c: char)
    requires Piece(a, c) && t == a + [c] + b
    ensures Pieces(t, c) == [a] + Pieces(b, c)
  {
    assert t[..|a|] == a && t[|a|] == c;
    assert CharPos(t, c) == |a|;
    assert t[|a| + 1..] == b;
  }

  /** Joining pieces with their separator and splitting again gives the pieces back. */
  lemma {:induction false} PiecesOfJoin(ls: seq<string>, c: char)
    requires forall k :: 0 <= k < |ls| ==> Piece(ls[k], c)
    ensures Pieces(Join(ls, [c]), c) == ls
    decreases |ls|
  {
    if ls == [] {
      assert CharPos([], c) == -1;
    } else if |ls| == 1 {
      assert Piece(ls[0], c);
    } else {
      var rest := Join(ls[1..], [c]);
      assert Piece(ls[0], c);
      PiecesStep(Join(ls, [c]), ls[0], rest, c);
      PiecesOfJoin(ls[1..], c);
    }
  }

  /**
   * line_uniq: the text with every repeated line removed, lines joined by
   * '\n'; the text itself when no line repeats, "" when it has no lines.
   */
  method LineUniq(text: string) returns (r: string)
    ensures Lines(r) == Uniq(Lines(text))
    ensures Lines(text) == [] ==> r == ""
    ensures Distinct(Lines(text)) && Lines(text) != [] ==> r == text
    ensures !Distinct(Lines(text)) ==> r == Join(Uniq(Lines(text)), [REC])
  {
    var ls := Lines(text);
    if |ls| == 0 {
      assert CharPos("", REC) == -1;
      return "";
    }
    var a := new string[|ls|](k requires 0 <= k < |ls| => ls[k]);
    assert a[..] == ls;
    var n := UniqInPlace(a);
    UniqShorter(ls);
    if n < a.Length {
      r := Join(a[..n], [REC]);
      UniqElements(ls);
      PiecesShape(text, REC);
      assert forall k :: 0 <= k < n ==> a[..n][k] in ls;
      PiecesOfJoin(a[..n], REC);
    } else {
      UniqDistinct(ls);
      r := text;
    }
  }

  /** line_uniq_app as written: no line is dropped before the alternatives are joined. */
  function LineUniqApp(text: string): (r: string)
    ensures REC !in text ==> r == text
    ensures REC in text && Lines(text) == [] ==> r == ""
    ensures REC in text && |Lines(text)| == 1 ==> r == Lines(text)[0]
    ensures REC in text && |Lines(text)| > 1 ==> r == " ( " + Join(Lines(text), " | ") + " ) "
  {
    if REC !in text then text
    else Alternatives(Lines(text))
  }

  /** The compound-analysis form of a list of lines. */
  function Alternatives(ls: seq<string>): string
  {
    if |ls| == 0 then "" else if |ls| == 1 then ls[0] else " ( " + Join(ls, " | ") + " ) "
  }

  /** line_uniq_app with the de-duplication its comment describes: each line once. */
  function LineUniqAppCorrected(text: string): (r: string)
    ensures REC !in text ==> r == text
    ensures REC in text ==> r == Alternatives(Uniq(Lines(text)))
  {
    if REC !in text then text
    else Alternatives(Uniq(Lines(text)))
  }

  /** The text "1\n2\n1" of the example. */
  function Example(): string { "1\n2\n1" }

  lemma ExampleLines()
    ensures Lines(Example()) == ["1", "2", "1"]
  {
    assert Piece("1", REC) && Piece("2", REC);
    PiecesStep("2\n1", "2", "1", REC);
    PiecesStep(Example(), "1", "2\n1", REC);
    assert CharPos("1", REC) == -1;
  }

  lemma ExampleUniq()
    ensures Uniq(["1", "2", "1"]) == ["1", "2"]
  {
    var ls := ["1", "2", "1"];
    assert "1" != "2" by { assert "1"[0] != "2"[0]; }
    assert ls[..1] == ["1"] && ls[..2] == ["1", "2"];
    assert ["1"][..0] == [] && ["1", "2"][..1] == ["1"];
    assert Uniq(["1"]) == ["1"];
    assert Uniq(["1", "2"]) == ["1", "2"];
  }

  /** As written "1\n2\n1" is turned into " ( 1 | 2 | 1 ) ", listing the line 1 twice. */
  lemma LineUniqAppRepeats()
    ensures LineUniqApp(Example()) == " ( " + Join(["1", "2", "1"], " | ") + " ) "
  {
    ExampleLines();
  }

  /** Corrected, "1\n2\n1" gives " ( 1 | 2 ) " as the comment of line_uniq_app shows. */
  lemma LineUniqAppCorrectedOnce()
    ensures LineUniqAppCorrected(Example()) == " ( " + Join(["1", "2"], " | ") + " ) "
  {
    ExampleLines();
    ExampleUniq();
  }

  /** Corrected, the alternatives are the distinct lines of the text in first-seen order. */
  lemma CorrectedAlternativesDistinct(text: string)
    requires REC in text && |Uniq(Lines(text))| > 1
    ensures LineUniqAppCorrected(text) == " ( " + Join(Uniq(Lines(text)), " | ") + " ) "
    ensures Distinct(Uniq(Lines(text)))
    ensures forall l :: l in Uniq(Lines(text)) <==> l in Lines(text)
  {
    UniqElements(Lines(text));
  }

  /** The separators that end a morphological field. */
  predicate Stop(c: char)
  {
    c == ' ' || c == '\t' || c == '\n'
  }

  /** The first stop character of r at or after start, or |r|. */
  function FieldEnd(r: string, start: nat): (e: nat)
    requires start <= |r|
    ensures start <= e <= |r| && (e < |r| ==> Stop(r[e])) && forall k :: start <= k < e ==> !Stop(r[k])
    decreases |r| - start
  {
    if start == |r| || Stop(r[start]) then start else FieldEnd(r, start + 1)
  }

  /** fieldlen(r, start): the length of the run of non-stop characters from start. */
  function FieldLen(r: string, start: nat): (n: nat)
    requires start <= |r|
    ensures start + n <= |r| && (start + n == |r| || Stop(r[start + n]))
    ensures forall k :: start <= k < start + n ==> !Stop(r[k])
  {
    FieldEnd(r, start) - start
  }

  /** copy_field(morph, pos, var): the field after the first tag at or after pos, or null. */
  function CopyField(morph: Option<string>, pos: nat, tag: string): (r: Option<string>)
    requires |tag| == TAG_LEN
    requires morph.Some? && morph.value != [] ==> pos <= |morph.value|
    ensures r.Some? <==> morph.Some? && exists i :: pos <= i && OccursAt(tag, morph.value, i)
    ensures r.Some? ==>
      (var p := FirstOccurrence(tag, morph.value, pos) + TAG_LEN;
       OccursAt(r.value, morph.value, p) && (forall k :: 0 <= k < |r.value| ==> !Stop(r.value[k])) &&
       (p + |r.value| == |morph.value| || Stop(morph.value[p + |r.value|])))
  {
    if morph.None? || morph.value == [] then None
    else
      var m := morph.value;
      var p := FirstOccurrence(tag, m, pos);
      if p < 0 then None
      else
        var e := FieldEnd(m, p + TAG_LEN);
        Some(m[p + TAG_LEN..e])
  }

  /** copy_field(dest, morph, pos, var): appends the same field to dest, or nothing. */
  method CopyFieldTo(dest: Builder, morph: Option<string>, pos: nat, tag: string)
    requires |tag| == TAG_LEN
    requires morph.Some? && morph.value != [] ==> pos <= |morph.value|
    modifies dest
    ensures dest.text == old(dest.text) + (match CopyField(morph, pos, tag) case None => [] case Some(f) => f)
  {
    match CopyField(morph, pos, tag)
    case None =>
    case Some(f) =>
      dest.text := dest.text + f;
  }

  /** The white space int.TryParse skips around a number: tab to carriage return, and space. */
  predicate White(c: char)
  {
    c == ' ' || ('\t' <= c <= '\r')
  }

  predicate Digit(c: char)
  {
    '0' <= c <= '9'
  }

  function TrimLead(s: string): (r: string)
    ensures |r| <= |s| && (r != [] ==> !White(r[0]))
  {
    if s != [] && White(s[0]) then TrimLead(s[1..]) else s
  }

  function TrimTrail(s: string): (r: string)
    ensures |r| <= |s| && (r != [] ==> !White(r[|r| - 1]))
  {
    if s != [] && White(s[|s| - 1]) then TrimTrail(s[..|s| - 1]) else s
  }

  /** The value of a string of decimal digits, most significant first. */
  function DigitsValue(ds: string): nat
    requires forall k :: 0 <= k < |ds| ==> Digit(ds[k])
  {
    if ds == [] then 0 else DigitsValue(ds[..|ds| - 1]) * 10 + DigitOf(ds[|ds| - 1])
  }

  function DigitOf(c: char): nat
    requires Digit(c)
  {
    c as int - '0' as int
  }

  /** The text between the white space around a number. */
  function Trim(s: string): string
  {
    TrimTrail(TrimLead(s))
  }

  /** The digits of a number: the text after an optional sign. */
  function Unsigned(t: string): string
  {
    if t != [] && (t[0] == '-' || t[0] == '+') then t[1..] else t
  }

  predicate AllDigits(ds: string)
  {
    forall k :: 0 <= k < |ds| ==> Digit(ds[k])
  }

  /**
   * int.TryParse(s): optional white space, an optional sign, one or more
   * digits, optional white space, and a value that fits in 32 bits.
   */
  function ParseInt(s: string): (r: Option<int>)
    ensures r.Some? ==> INT_MIN <= r.value <= INT_MAX
  {
    var t := Trim(s);
    var ds := Unsigned(t);
    if ds == [] || !AllDigits(ds) then None
    else
      var v := if t[0] == '-' then -(DigitsValue(ds) as int) else DigitsValue(ds) as int;
      if v < INT_MIN || v > INT_MAX then None else Some(v)
  }

  /** atoi(string): the parsed value, or 0 when the text is not a 32-bit integer. */
  function Atoi(s: string): (r: int)
    ensures INT_MIN <= r <= INT_MAX
    ensures ParseInt(s).None? ==> r == 0
  {
    match ParseInt(s)
    case None => 0
    case Some(v) => v
  }

  /** ASCII decoding: bytes above 0x7F become '?'. */
  function AsciiText(bs: seq<byte>): (r: string)
    ensures |r| == |bs| && forall k :: 0 <= k < |bs| ==> r[k] == (if bs[k] < 0x80 then bs[k] as char else '?')
  {
    seq(|bs|, k requires 0 <= k < |bs| => if bs[k] < 0x80 then bs[k] as char else '?')
  }

  /** atoi(Bytes): int.Parse of the ASCII text, 0 when it throws. */
  function AtoiBytes(bs: seq<byte>): (r: int)
    ensures r == Atoi(AsciiText(bs))
  {
    match ParseInt(AsciiText(bs))
    case None => 0
    case Some(v) => v
  }

  /** n in decimal, without leading zeros: what an int's ToString() gives for n >= 0. */
  function Decimal(n: nat): (r: string)
    ensures r != [] && forall k :: 0 <= k < |r| ==> Digit(r[k])
  {
    if n < 10 then [('0' as int + n) as char] else Decimal(n / 10) + [('0' as int + n % 10) as char]
  }

  lemma {:induction false} DecimalValue(n: nat)
    ensures DigitsValue(Decimal(n)) == n
  {
    if n >= 10 {
      DecimalValue(n / 10);
      assert Decimal(n)[..|Decimal(n)| - 1] == Decimal(n / 10);
    }
  }

  /** atoi reads back every non-negative int written in decimal. */
  lemma AtoiDecimal(n: nat)
    requires n <= INT_MAX
    ensures Atoi(Decimal(n)) == n
  {
    var d := Decimal(n);
    assert !White(d[0]) && !White(d[|d| - 1]);
    assert TrimLead(d) == d && TrimTrail(d) == d && Unsigned(d) == d;
    DecimalValue(n);
  }

  /** atoi also reads back a minus sign followed by the decimal digits of n, down to INT_MIN. */
  lemma AtoiNegative(n: nat)
    requires n <= -INT_MIN
    ensures Atoi("-" + Decimal(n)) == -(n as int)
  {
    var d := "-" + Decimal(n);
    assert !White(d[0]) && !White(d[|d| - 1]);
    assert TrimLead(d) == d && TrimTrail(d) == d && Unsigned(d) == Decimal(n);
    DecimalValue(n);
  }

  /** Text that is not a number reads as 0. */
  lemma AtoiNotNumber(s: string)
    requires forall k :: 0 <= k < |s| ==> !Digit(s[k])
    ensures Atoi(s) == 0
  {
    var t := Trim(s);
    TrimKeeps(s);
    var ds := Unsigned(t);
    if ds != [] {
      assert ds[0] in t;
      assert !Digit(ds[0]);
    }
  }

  /** Trimming keeps only characters of s. */
  lemma TrimKeeps(s: string)
    ensures forall c :: c in Trim(s) ==> c in s
  {
    LeadKeeps(s);
    TrailKeeps(TrimLead(s));
  }

  lemma {:induction false} LeadKeeps(s: string)
    ensures forall c :: c in TrimLead(s) ==> c in s
  {
    if s != [] && White(s[0]) {
      LeadKeeps(s[1..]);
    }
  }

  lemma {:induction false} TrailKeeps(s: string)
    ensures forall c :: c in TrimTrail(s) ==> c in s
  {
    if s != [] && White(s[|s| - 1]) {
      TrailKeeps(s[..|s| - 1]);
    }
  }
}
