/**
 * Bytes.cs: a view of `length` bytes of a shared array from `offset`,
 * with a tokenizer on spaces and tabs and in-place removal.
 */
module ByteView {
  import opened Base

  /** The unchecked `(byte)c` of a character. */
  function Low(c: char): byte
  {
    (c as int) % 0x100
  }

  predicate Blank(b: byte)
  {
    b == 32 || b == 9
  }

  /** The first position of b in d[from..from+count], or -1 (Array.IndexOf over a range). */
  function IndexIn(d: seq<byte>, b: byte, from: int, count: int): (r: int)
    requires 0 <= from && 0 <= count && from + count <= |d|
    ensures r == -1 || (from <= r < from + count && d[r] == b)
    ensures forall k :: from <= k < from + count && (r == -1 || k < r) ==> d[k] != b
    decreases count
  {
    if count == 0 then -1 else if d[from] == b then from else IndexIn(d, b, from + 1, count - 1)
  }

  /** Array.IndexOf(a, b, from, count). */
  method IndexOfByte(a: array<byte>, b: byte, from: int, count: int) returns (r: int)
    requires 0 <= from && 0 <= count && from + count <= a.Length
    ensures r == IndexIn(a[..], b, from, count)
  {
    var k := from;
    while k < from + count
      invariant from <= k <= from + count
      invariant IndexIn(a[..], b, from, count) == IndexIn(a[..], b, k, from + count - k)
    {
      if a[k] == b {
        return k;
      }
      k := k + 1;
    }
    r := -1;
  }

  /**
   * The comparison Contains makes at position p: the first character as a
   * byte, the others as characters.
   */
  predicate MatchAt(d: seq<byte>, p: int, v: string)
    requires |v| > 0
  {
    0 <= p && p + |v| <= |d| && d[p] == Low(v[0]) && forall j :: 1 <= j < |v| ==> d[p + j] == v[j] as int
  }

  /** The inner loop of Contains from j on; None: it reads past the end of the array. */
  function MatchFrom(d: seq<byte>, p: nat, v: string, j: nat): Option<bool>
    decreases |v| - j
  {
    if j >= |v| then Some(true)
    else if p + j >= |d| then None
    else if d[p + j] != v[j] as int then Some(false)
    else MatchFrom(d, p, v, j + 1)
  }

  /**
   * Contains as written, from loop position i: `i <= last` is checked
   * before Array.IndexOf moves i, so a candidate found past `last` is
   * compared as well. None: the comparison reads past the array.
   */
  function ContainsAsWritten(d: seq<byte>, offset: nat, length: nat, v: string, i: int): Option<bool>
    requires |v| > 0 && offset <= i && offset + length <= |d|
    decreases |d| - i
  {
    var last := offset + length - |v|;
    if i > last then Some(false)
    else
      var k := IndexIn(d, Low(v[0]), i, length - (i - offset));
      if k < 0 then Some(false)
      else
        match MatchFrom(d, k, v, 1)
        case None => None
        case Some(true) => Some(true)
        case Some(false) => ContainsAsWritten(d, offset, length, v, k + 1)
  }

  /** In "abc" the view "ab" is said to contain "bc": the 'c' compared lies past the view. */
  lemma ContainsPastView()
    ensures ContainsAsWritten([97, 98, 99], 0, 2, "bc", 0) == Some(true)
    ensures !exists p :: 0 <= p <= 0 && MatchAt([97, 98, 99], p, "bc")
  {
    assert IndexIn([97, 98, 99], 98, 0, 2) == 1;
    assert MatchFrom([97, 98, 99], 1, "bc", 1) == Some(true);
  }

  /** A span of bytes: where it starts and how long it is. */
  datatype Span = Span(start: int, len: int)

  /** The first non-blank position of s at or after i (|s| if none). */
  function SkipBlanks(s: seq<byte>, i: nat): (r: nat)
    requires i <= |s|
    ensures i <= r <= |s| && (r < |s| ==> !Blank(s[r]))
    decreases |s| - i
  {
    if i == |s| || !Blank(s[i]) then i else SkipBlanks(s, i + 1)
  }

  /** The end of the run of non-blank bytes of s starting at i. */
  function RunEnd(s: seq<byte>, i: nat): (r: nat)
    requires i <= |s|
    ensures i <= r <= |s| && (r < |s| ==> Blank(s[r]))
    decreases |s| - i
  {
    if i == |s| || Blank(s[i]) then i else RunEnd(s, i + 1)
  }

  /** Every byte SkipBlanks passes over is a blank. */
  lemma {:induction false} SkippedAreBlank(s: seq<byte>, i: nat)
    requires i <= |s|
    ensures forall k :: i <= k < SkipBlanks(s, i) ==> Blank(s[k])
    decreases |s| - i
  {
    if i < |s| && Blank(s[i]) {
      SkippedAreBlank(s, i + 1);
    }
  }

  /** Every byte RunEnd passes over is a non-blank. */
  lemma {:induction false} RunIsSolid(s: seq<byte>, i: nat)
    requires i <= |s|
    ensures forall k :: i <= k < RunEnd(s, i) ==> !Blank(s[k])
    decreases |s| - i
  {
    if i < |s| && !Blank(s[i]) {
      RunIsSolid(s, i + 1);
    }
  }

  /** One round of the field scan from position i: the next field and where the scan resumes, if any. */
  datatype Cut = NoField | Cut(field: Span, resume: nat)

  function NextCut(s: seq<byte>, i: nat): (c: Cut)
    requires i <= |s| + 1
    ensures c.Cut? ==> i <= c.field.start && 0 < c.field.len && c.resume == c.field.start + c.field.len + 1 <= |s| + 1
  {
    if i >= |s| then NoField
    else
      var a := SkipBlanks(s, i);
      if a == |s| then NoField
      else
        var b := RunEnd(s, a + 1);
        Cut(Span(a, b - a), b + 1)
  }

  /** The fields of s from position i on, as spans of s; i may be one past the end, as after the last field. */
  function Fields(s: seq<byte>, i: nat): seq<Span>
    requires i <= |s| + 1
    decreases |s| + 1 - i
  {
    match NextCut(s, i)
    case NoField => []
    case Cut(f, r) => [f] + Fields(s, r)
  }

  /** Fields unfolded once: nothing after a NoField cut, else the cut's field and the fields from where it resumes. */
  lemma FieldsNext(s: seq<byte>, i: nat)
    requires i <= |s| + 1
    ensures NextCut(s, i).NoField? ==> Fields(s, i) == []
    ensures NextCut(s, i).Cut? ==> Fields(s, i) == [NextCut(s, i).field] + Fields(s, NextCut(s, i).resume)
  {
  }

  /** A field: a non-empty run of non-blank bytes of s with a blank or an end on each side. */
  predicate MaximalRun(s: seq<byte>, f: Span)
  {
    0 <= f.start && 0 < f.len && f.start + f.len <= |s| &&
    (forall k :: f.start <= k < f.start + f.len ==> !Blank(s[k])) &&
    (f.start == 0 || Blank(s[f.start - 1])) && (f.start + f.len == |s| || Blank(s[f.start + f.len]))
  }

  /** Each field at or after i is a maximal run starting at or after i. */
  lemma {:induction false} FieldsAreRuns(s: seq<byte>, i: nat)
    requires i <= |s| + 1 && (i == 0 || i > |s| || Blank(s[i - 1]))
    ensures forall m :: 0 <= m < |Fields(s, i)| ==> MaximalRun(s, Fields(s, i)[m]) && i <= Fields(s, i)[m].start
    decreases |s| + 1 - i
  {
    if i < |s| {
      var a := SkipBlanks(s, i);
      if a < |s| {
        var b := RunEnd(s, a + 1);
        SkippedAreBlank(s, i);
        RunIsSolid(s, a + 1);
        assert a == 0 || Blank(s[a - 1]);
        assert MaximalRun(s, Span(a, b - a));
        FieldsAreRuns(s, b + 1);
        assert NextCut(s, i) == Cut(Span(a, b - a), b + 1);
        var F, R := Fields(s, i), Fields(s, b + 1);
        assert F == [Span(a, b - a)] + R;
        forall m | 0 <= m < |F|
          ensures MaximalRun(s, F[m]) && i <= F[m].start
        {
          if m > 0 {
            assert F[m] == R[m - 1];
          }
        }
      }
    }
  }

  /** The fields come left to right, each ending before the next starts. */
  lemma {:induction false} FieldsInOrder(s: seq<byte>, i: nat)
    requires i <= |s| + 1
    ensures forall m :: 0 <= m < |Fields(s, i)| ==> i <= Fields(s, i)[m].start
    ensures forall m :: 0 < m < |Fields(s, i)| ==> Fields(s, i)[m - 1].start + Fields(s, i)[m - 1].len < Fields(s, i)[m].start
    decreases |s| + 1 - i
  {
    if i < |s| {
      var a := SkipBlanks(s, i);
      if a < |s| {
        var b := RunEnd(s, a + 1);
        FieldsInOrder(s, b + 1);
        assert NextCut(s, i) == Cut(Span(a, b - a), b + 1);
        assert Fields(s, i) == [Span(a, b - a)] + Fields(s, b + 1);
      }
    }
  }

  /** Every non-blank byte at or after i lies in a field. */
  lemma {:induction false} FieldsCover(s: seq<byte>, i: nat, k: nat)
    requires i <= k < |s| && !Blank(s[k])
    ensures exists m :: 0 <= m < |Fields(s, i)| && Fields(s, i)[m].start <= k < Fields(s, i)[m].start + Fields(s, i)[m].len
    decreases |s| + 1 - i
  {
    var a := SkipBlanks(s, i);
    SkippedAreBlank(s, i);
    assert a <= k;
    var b := RunEnd(s, a + 1);
    var F := Fields(s, i);
    assert NextCut(s, i) == Cut(Span(a, b - a), b + 1);
    assert F == [Span(a, b - a)] + Fields(s, b + 1);
    if k < b {
      assert F[0].start <= k < F[0].start + F[0].len;
    } else {
      FieldsCover(s, b + 1, k);
      var R := Fields(s, b + 1);
      var m :| 0 <= m < |R| && R[m].start <= k < R[m].start + R[m].len;
      assert F[m + 1] == R[m];
    }
  }

  /** After the bytes past a gap of count at off + start move left over it, the view from off
      holds the old view with the gap cut out. */
  lemma Spliced(d0: seq<byte>, d1: seq<byte>, off: nat, start: nat, count: nat, n: nat)
    requires off + start + count + n <= |d0| == |d1|
    requires d1[..off + start] == d0[..off + start]
    requires d1[off + start..off + start + n] == d0[off + start + count..off + start + count + n]
    ensures d1[off..off + start + n] == d0[off..off + start + count + n][..start] + d0[off..off + start + count + n][start + count..]
  {
    var v := d0[off..off + start + count + n];
    var w := v[..start] + v[start + count..];
    var l := d1[off..off + start + n];
    assert |l| == |w|;
    forall m | 0 <= m < |l|
      ensures l[m] == w[m]
    {
      if m < start {
        assert d1[..off + start][off + m] == d0[..off + start][off + m];
      } else {
        assert d1[off + start..off + start + n][m - start] == d0[off + start + count..off + start + count + n][m - start];
      }
    }
  }

  /** Array.Copy(a, from + count, a, from, n): the n bytes after the gap move left by count. */
  method ShiftLeft(a: array<byte>, from: int, count: int, n: int)
    requires 0 <= from && 0 <= count && 0 <= n && from + count + n <= a.Length
    modifies a
    ensures a[..from] == old(a[..from]) && a[from..from + n] == old(a[from + count..from + count + n])
    ensures a[from + n..] == old(a[from + n..])
  {
    var k := 0;
    ghost var d0 := a[..];
    while k < n
      invariant 0 <= k <= n
      invariant forall m :: 0 <= m < from ==> a[m] == d0[m]
      invariant forall m :: from <= m < from + k ==> a[m] == d0[m + count]
      invariant forall m :: from + k <= m < a.Length ==> a[m] == d0[m]
    {
      a[from + k] := a[from + count + k];
      k := k + 1;
    }
  }

  /** A window of a window is a window of the array. */
  lemma Window(a: seq<byte>, off: nat, len: nat, start: nat, count: nat)
    requires off + len <= |a| && start + count <= len
    ensures a[off..off + len][start..start + count] == a[off + start..off + start + count]
  {
    var w := a[off..off + len];
    var x, y := w[start..start + count], a[off + start..off + start + count];
    forall k | 0 <= k < count
      ensures x[k] == y[k]
    {
      assert x[k] == w[start + k] == a[off + start + k];
    }
    assert x == y;
  }

  /** The Bytes struct: `length` bytes of the shared array `data` from `offset`. */
  class Bytes {
    var data: array<byte>
    var offset: int
    var length: int

    ghost predicate Valid()
      reads this
    {
      0 <= offset && 0 <= length && offset + length <= data.Length
    }

    /** The bytes of the view. */
    function Contents(): seq<byte>
      reads this, data
      requires Valid()
    {
      data[offset..offset + length]
    }

    constructor (d: array<byte>, off: int, len: int)
      ensures data == d && offset == off && length == len
    {
      data, offset, length := d, off, len;
    }

    /** new Bytes(data): the whole array. */
    constructor Whole(d: array<byte>)
      ensures data == d && Valid() && Contents() == d[..]
    {
      data, offset, length := d, 0, d.Length;
    }

    /** this[i]. */
    function At(i: int): (b: byte)
      reads this, data
      requires 0 <= offset + i < data.Length
      ensures Valid() && 0 <= i < length ==> b == Contents()[i]
    {
      data[offset + i]
    }

    /** Equals(string): the same length, and each byte is the low byte of its character. */
    method Equals(value: string) returns (r: bool)
      requires Valid()
      ensures r <==> |value| == length && forall i :: 0 <= i < length ==> Contents()[i] == Low(value[i])
    {
      if length != |value| {
        return false;
      }
      var i := 0;
      while i < |value|
        invariant 0 <= i <= |value|
        invariant forall k :: 0 <= k < i ==> data[offset + k] == Low(value[k])
      {
        if data[offset + i] != Low(value[i]) {
          return false;
        }
        i := i + 1;
      }
      return true;
    }

    /**
     * Contains, with the candidate search of each round kept to the
     * positions where the value still fits in the view.
     */
    method Contains(value: string) returns (r: bool)
      requires Valid() && |value| > 0
      ensures r <==> exists p :: offset <= p <= offset + length - |value| && MatchAt(data[..], p, value)
    {
      var last := offset + length - |value|;
      var i := offset;
      var b := Low(value[0]);
      while i <= last
        invariant offset <= i
        invariant forall p :: offset <= p < i && p <= last ==> !MatchAt(data[..], p, value)
        decreases last + 1 - i
      {
        var k := IndexOfByte(data, b, i, last - i + 1);
        if k < 0 {
          break;
        }
        var j := 1;
        while j < |value| && data[k + j] == value[j] as int
          invariant 1 <= j <= |value|
          invariant forall m :: 1 <= m < j ==> data[k + m] == value[m] as int
        {
          j := j + 1;
        }
        if j == |value| {
          assert MatchAt(data[..], k, value);
          return true;
        }
        assert !MatchAt(data[..], k, value);
        i := k + 1;
      }
      return false;
    }

    /** IndexOf(c): the first position of the byte of c in the view, or -1. */
    method IndexOf(c: char) returns (r: int)
      requires Valid()
      ensures -1 <= r < length
      ensures r >= 0 ==> Contents()[r] == Low(c)
      ensures forall k :: 0 <= k < length && (r < 0 || k < r) ==> Contents()[k] != Low(c)
    {
      var i := IndexOfByte(data, Low(c), offset, length);
      r := if i < 0 then -1 else i - offset;
    }

    /** IndexOf(c, start): the first position at or after start, or -1. */
    method IndexOfFrom(c: char, start: int) returns (r: int)
      requires Valid() && 0 <= start <= length
      ensures r == -1 || start <= r < length
      ensures r >= 0 ==> Contents()[r] == Low(c)
      ensures forall k :: start <= k < length && (r < 0 || k < r) ==> Contents()[k] != Low(c)
    {
      var i := IndexOfByte(data, Low(c), offset + start, length - start);
      r := if i < 0 then -1 else i - offset;
    }

    /** Substring(start): the view from start on, over the same array. */
    method Substring(start: int) returns (v: Bytes)
      requires Valid() && 0 <= start <= length
      ensures fresh(v) && v.data == data && v.Valid() && v.Contents() == Contents()[start..]
    {
      v := new Bytes(data, offset + start, length - start);
      Window(data[..], offset, length, start, length - start);
    }

    /** Substring(start, count): count bytes from start, over the same array. */
    method SubstringCount(start: int, count: int) returns (v: Bytes)
      requires Valid() && 0 <= start && 0 <= count && start + count <= length
      ensures fresh(v) && v.data == data && v.Valid() && v.Contents() == Contents()[start..start + count]
    {
      v := new Bytes(data, offset + start, count);
      Window(data[..], offset, length, start, count);
    }

    /** Remove(start): the view ends at start. */
    method Remove(start: int)
      requires Valid() && 0 <= start <= length
      modifies this
      ensures data == old(data) && offset == old(offset) && length == start
      ensures Valid() && Contents() == old(Contents())[..start]
    {
      length := start;
    }

    /**
     * Remove(start, count): the view loses count bytes at start; the tail
     * is shifted left in the shared array, whose bytes past the new end
     * are those it had.
     */
    method RemoveCount(start: int, count: int)
      requires Valid() && 0 <= start && 0 <= count && start + count <= length
      modifies this, data
      ensures data == old(data) && offset == old(offset) && length == old(length) - count && Valid()
      ensures Contents() == old(Contents()[..start] + Contents()[start + count..])
      ensures data[offset + length..] == old(data[offset + length - count..])
      ensures data[..offset] == old(data[..offset])
    {
      ghost var d0 := data[..];
      ghost var v0 := Contents();
      assert v0 == d0[offset..offset + length];
      ShiftLeft(data, offset + start, count, length - count - start);
      length := length - count;
      Spliced(d0, data[..], offset, start, count, length - start);
    }

    /** ExpandToEndOf(line): this view's start, stretched to the end of line. */
    method ExpandToEndOf(line: Bytes) returns (v: Bytes)
      requires Valid() && line.data == data && line.Valid() && offset <= line.offset + line.length
      ensures fresh(v) && v.data == data && v.Valid() && v.Contents() == data[offset..line.offset + line.length]
    {
      v := new Bytes(data, offset, line.offset + line.length - offset);
    }

    /** IndexIn(other): where this view starts within other, over the same array. */
    function IndexIn(other: Bytes): (r: int)
      reads this, other
      ensures other.data == data && Valid() && other.Valid() && 0 <= r && r + length <= other.length ==>
        other.Contents()[r..r + length] == Contents()
    {
      offset - other.offset
    }

    /** The first loop of a round of Split: past the blanks from array position i. */
    method SkipFrom(i: int, ghost s: seq<byte>) returns (a: int)
      requires Valid() && s == Contents() && offset <= i <= offset + length + 1
      ensures i > offset + length ==> a == i
      ensures i <= offset + length ==> a - offset == SkipBlanks(s, i - offset)
    {
      var end := offset + length;
      a := i;
      while a < end && Blank(data[a])
        invariant i <= a <= end + 1 && (i > end ==> a == i)
        invariant i <= end ==> a <= end && SkipBlanks(s, a - offset) == SkipBlanks(s, i - offset)
      {
        a := a + 1;
      }
    }

    /** The second loop of a round of Split: the end of the run of non-blanks after a. */
    method RunFrom(a: int, ghost s: seq<byte>) returns (j: int)
      requires Valid() && s == Contents() && offset <= a < offset + length
      ensures j - offset == RunEnd(s, a + 1 - offset)
    {
      var end := offset + length;
      j := a + 1;
      while j < end && !Blank(data[j])
        invariant a < j <= end
        invariant RunEnd(s, j - offset) == RunEnd(s, a + 1 - offset)
      {
        j := j + 1;
      }
    }

    /** One round of Split from array position i: the next field [a, j) of the array, if any. */
    method NextField(i: int, ghost s: seq<byte>) returns (a: int, j: int)
      requires Valid() && s == Contents() && offset <= i <= offset + length + 1
      ensures a < offset + length ==> i <= a < j <= offset + length
      ensures NextCut(s, i - offset) == if a >= offset + length then NoField else Cut(Span(a - offset, j - a), j + 1 - offset)
    {
      a := SkipFrom(i, s);
      if a >= offset + length {
        return a, a;
      }
      j := RunFrom(a, s);
    }

    /** What Split knows between rounds: the spans so far are the first fields of the view, moved
        to the array, and rest is what remains from array position i. */
    ghost predicate SplitSoFar(s: seq<byte>, i: int, done: seq<Span>, rest: seq<Span>, spans: seq<Span>)
      reads this, data
    {
      Valid() && s == Contents() && offset <= i <= offset + length + 1 &&
      rest == Fields(s, i - offset) && Fields(s, 0) == done + rest && spans == ShiftAll(done, offset)
    }

    /** One round of Split: the next field, if any, appended to spans. */
    method SplitRound(i: int, ghost s: seq<byte>, ghost done: seq<Span>, ghost rest: seq<Span>, spans: seq<Span>)
      returns (stop: bool, i': int, ghost done': seq<Span>, ghost rest': seq<Span>, spans': seq<Span>)
      requires SplitSoFar(s, i, done, rest, spans)
      ensures stop ==> spans == ShiftAll(Fields(s, 0), offset)
      ensures !stop ==> i < i' && SplitSoFar(s, i', done', rest', spans')
    {
      hide Fields, NextCut, ShiftAll;
      var a, j := NextField(i, s);
      if a >= offset + length {
        FieldsNext(s, i - offset);
        return true, i, done, rest, spans;
      }
      RoundOk(s, i, done, rest, spans, a, j);
      stop, i', done', rest', spans' := false, j + 1, done + [Span(a - offset, j - a)], Fields(s, j + 1 - offset), spans + [Span(a, j - a)];
    }

    /** A round of Split that finds the field [a, j) keeps SplitSoFar, one field further on. */
    lemma RoundOk(s: seq<byte>, i: int, done: seq<Span>, rest: seq<Span>, spans: seq<Span>, a: int, j: int)
      requires SplitSoFar(s, i, done, rest, spans) && i <= a < j <= offset + length
      requires NextCut(s, i - offset) == Cut(Span(a - offset, j - a), j + 1 - offset)
      ensures SplitSoFar(s, j + 1, done + [Span(a - offset, j - a)], Fields(s, j + 1 - offset), spans + [Span(a, j - a)])
    {
      hide Fields, NextCut, ShiftAll;
      var f := Span(a - offset, j - a);
      FieldsStep(s, done, i - offset, f, j + 1 - offset, offset);
      assert Shift(f, offset) == Span(a, j - a);
    }

    /** Split: the fields of the view, as spans of the array. */
    method Split() returns (spans: seq<Span>)
      requires Valid()
      ensures spans == ShiftAll(Fields(Contents(), 0), offset)
    {
      ghost var s := Contents();
      ghost var done: seq<Span> := [];
      ghost var rest := Fields(s, 0);
      var i := offset;
      spans := [];
      while true
        invariant SplitSoFar(s, i, done, rest, spans)
        decreases offset + length + 1 - i
      {
        var stop, i', spans';
        ghost var done', rest';
        stop, i', done', rest', spans' := SplitRound(i, s, done, rest, spans);
        if stop {
          return;
        }
        i, done, rest, spans := i', done', rest', spans';
      }
    }
  }

  /** A round of Split in terms of fields: the cut's field moves from what remains to what is done. */
  lemma FieldsStep(s: seq<byte>, done: seq<Span>, p: nat, f: Span, q: nat, d: int)
    requires p <= |s| + 1 && NextCut(s, p) == Cut(f, q) && Fields(s, 0) == done + Fields(s, p)
    ensures Fields(s, 0) == (done + [f]) + Fields(s, q)
    ensures ShiftAll(done + [f], d) == ShiftAll(done, d) + [Shift(f, d)]
  {
    FieldsNext(s, p);
    Shunt(done, f, Fields(s, q));
    ShiftAllSnoc(done, f, d);
  }

  lemma Shunt<T>(done: seq<T>, f: T, rest: seq<T>)
    ensures done + ([f] + rest) == (done + [f]) + rest
  {
  }

  function Shift(f: Span, d: int): Span
  {
    Span(f.start + d, f.len)
  }

  /** Spans of a view as spans of its array: each moved by the view's offset d. */
  function ShiftAll(fs: seq<Span>, d: int): (r: seq<Span>)
    ensures |r| == |fs| && forall m :: 0 <= m < |fs| ==> r[m] == Shift(fs[m], d)
  {
    seq(|fs|, m requires 0 <= m < |fs| => Shift(fs[m], d))
  }

  lemma ShiftAllSnoc(fs: seq<Span>, f: Span, d: int)
    ensures ShiftAll(fs + [f], d) == ShiftAll(fs, d) + [Shift(f, d)]
  {
    assert forall m :: 0 <= m < |fs| ==> (fs + [f])[m] == fs[m];
  }
}
