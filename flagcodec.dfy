/**
 * The affix flag codec of AffixMgr.cs (decode_flag, decode_flags,
 * encode_flag). The FLAG option of an affix file picks one of four
 * spellings of a flag: one byte (the Ispell default), two bytes (LONG),
 * a decimal number, with numbers separated by commas (NUM), or one UTF-8
 * character (UNI). Irregular flags are reported through warnings, which
 * in strict mode become exceptions: here the warnings are returned in the
 * order they are raised, so a strict-mode call throws exactly when the
 * returned sequence is not empty.
 */
module FlagCodec {
  import opened Base
  import opened Flags
  import opened ListUtils

  datatype FlagMode = CHAR | LONG | NUM | UNI

  /** The warnings of the codec: TooLargeFlag, ZeroFlag and BadFlagvector. */
  datatype Warning = TooLargeFlag(value: int) | ZeroFlag | BadFlagvector

  /** One decoded flag and the warnings raised while decoding it. */
  datatype Item = Item(flag: Flag, warnings: seq<Warning>)

  /** A decoded flag vector and the warnings raised while decoding it. */
  datatype Decoded = Decoded(flags: seq<Flag>, warnings: seq<Warning>)

  /** The separator of NUM flags. */
  const COMMA: byte := 44

  /** C#'s unchecked (ushort) cast: the low 16 bits of a two's complement int. */
  function Wrap16(i: int): (r: Flag)
    ensures 0 <= i < 0x1_0000 ==> r == i
    ensures (r - i) % 0x1_0000 == 0
  {
    i % 0x1_0000
  }

  /**
   * The NUM branch of decode_flag and of the List overload of
   * decode_flags as written: only the upper bound is checked before the
   * cast, so a negative number wraps around to an unrelated flag.
   */
  function NumFlagAsWritten(i: int): (r: Item)
    ensures i >= 0 ==> r == NumFlag(i)
  {
    if i >= DEFAULTFLAGS then Item(0, [TooLargeFlag(i)]) else Item(Wrap16(i), [])
  }

  /**
   * The NUM check of the array overload of decode_flags: a number outside
   * 0 .. DEFAULTFLAGS-1 is reported and replaced by 0.
   */
  function NumFlag(i: int): (r: Item)
    ensures r.flag < DEFAULTFLAGS && ZeroFlag !in r.warnings
    ensures r.warnings == [] <==> r.flag == i
  {
    if i >= DEFAULTFLAGS || i < 0 then Item(0, [TooLargeFlag(i)]) else Item(i, [])
  }

  /** "-65000" is below zero, yet as written it decodes to the ordinary flag 536 without a warning. */
  lemma NegativeFlagAliases()
    ensures NumFlagAsWritten(Atoi("-" + Decimal(65000))) == Item(536, [])
    ensures NumFlag(Atoi("-" + Decimal(65000))) == Item(0, [TooLargeFlag(-65000)])
  {
    AtoiNegative(65000);
  }

  /** The ZeroFlag warning, raised after a flag has come out as 0. */
  function ZeroCheck(it: Item): (r: Item)
    ensures r.flag == it.flag
    ensures ZeroFlag in r.warnings <==> ZeroFlag in it.warnings || it.flag == 0
  {
    if it.flag == 0 then Item(0, it.warnings + [ZeroFlag]) else it
  }

  /**
   * decode_flag(f): the first flag of f in the current mode, 0 when f is
   * too short. Every mode warns about a 0 flag; NUM also warns about, and
   * zeroes, a number that is not a flag.
   */
  function DecodeFlag(mode: FlagMode, f: seq<byte>, utf8: seq<byte> -> seq<Flag>): (r: Item)
    ensures ZeroFlag in r.warnings <==> r.flag == 0
    ensures mode == NUM ==> r.flag < DEFAULTFLAGS
    ensures mode != NUM ==> r.warnings == [] || r.warnings == [ZeroFlag]
  {
    ZeroCheck(match mode
      case LONG => Item(if |f| >= 2 then f[0] as int * 0x100 + f[1] as int else 0, [])
      case NUM => NumFlag(AtoiBytes(f))
      case UNI => var u := utf8(f); Item(if |u| > 0 then u[0] else 0, [])
      case CHAR => Item(if |f| > 0 then f[0] else 0, []))
  }

  /** The UTF-16 code units of a string of characters of the Basic Multilingual Plane. */
  function Units(s: string): (r: seq<Flag>)
    requires forall k :: 0 <= k < |s| ==> s[k] as int < 0x1_0000
    ensures |r| == |s| && forall k :: 0 <= k < |s| ==> r[k] == s[k] as int
  {
    seq(|s|, k requires 0 <= k < |s| => s[k] as int)
  }

  /** The text encode_flag gives for the flag 0. */
  function NullText(): (r: seq<Flag>)
    ensures |r| == 6 && forall k :: 0 <= k < 6 ==> r[k] < 0x80
  {
    Units("(NULL)")
  }

  /**
   * encode_flag(f): the spelling of f as UTF-16 code units: "(NULL)" for
   * 0, the high and the low byte in LONG mode, the decimal number in NUM
   * mode and the character with code f otherwise.
   */
  function EncodeFlag(mode: FlagMode, f: Flag): (r: seq<Flag>)
    ensures r != []
    ensures mode == LONG || mode == NUM || f == 0 ==> forall k :: 0 <= k < |r| ==> r[k] < 0x100
  {
    if f == 0 then NullText()
    else if mode == LONG then [f / 0x100, f % 0x100]
    else if mode == NUM then Units(Decimal(f))
    else [f]
  }

  /** Code units below 0x100 written as bytes, as an 8-bit encoding stores them. */
  function Latin1(us: seq<Flag>): (r: seq<byte>)
    requires forall k :: 0 <= k < |us| ==> us[k] < 0x100
    ensures |r| == |us| && forall k :: 0 <= k < |us| ==> r[k] == us[k]
  {
    seq(|us|, k requires 0 <= k < |us| => us[k] as byte)
  }

  /** Decimal digits stored as bytes read back as the same ASCII text. */
  lemma AsciiDigits(n: nat)
    ensures forall k :: 0 <= k < |Decimal(n)| ==> Decimal(n)[k] as int < 0x80
    ensures AsciiText(Latin1(Units(Decimal(n)))) == Decimal(n)
  {
    var d := Decimal(n);
    var t := AsciiText(Latin1(Units(d)));
    forall k | 0 <= k < |d|
      ensures t[k] == d[k]
    {
      assert Digit(d[k]);
    }
  }

  /** In LONG mode every nonzero flag is read back from its two bytes. */
  lemma LongRoundTrip(f: Flag, utf8: seq<byte> -> seq<Flag>)
    requires f != 0
    ensures DecodeFlag(LONG, Latin1(EncodeFlag(LONG, f)), utf8) == Item(f, [])
  {
    var b := Latin1(EncodeFlag(LONG, f));
    assert b[0] as int * 0x100 + b[1] as int == f;
  }

  /** In NUM mode every flag below DEFAULTFLAGS is read back from its decimal number. */
  lemma NumRoundTrip(f: Flag, utf8: seq<byte> -> seq<Flag>)
    requires 0 < f < DEFAULTFLAGS
    ensures NumItem(NumBytes(f)) == Item(f, [])
    ensures DecodeFlag(NUM, NumBytes(f), utf8) == Item(f, [])
  {
    AsciiDigits(f);
    AtoiDecimal(f);
    assert AtoiBytes(NumBytes(f)) == f;
  }

  /** In the default mode every nonzero flag below 0x100 is read back from its byte. */
  lemma CharRoundTrip(f: Flag, utf8: seq<byte> -> seq<Flag>)
    requires 0 < f < 0x100
    ensures DecodeFlag(CHAR, Latin1(EncodeFlag(CHAR, f)), utf8) == Item(f, [])
  {
  }

  /** The flags of a sequence of items. */
  function FlagsOf(xs: seq<Item>): (r: seq<Flag>)
    ensures |r| == |xs| && forall k :: 0 <= k < |xs| ==> r[k] == xs[k].flag
  {
    seq(|xs|, k requires 0 <= k < |xs| => xs[k].flag)
  }

  /** The warnings of a sequence of items, in order. */
  function WarningsOf(xs: seq<Item>): seq<Warning>
  {
    if xs == [] then [] else WarningsOf(xs[..|xs| - 1]) + xs[|xs| - 1].warnings
  }

  /** A warning is raised for the vector exactly when it is raised for one of its items. */
  lemma {:induction false} WarningsOfHas(xs: seq<Item>, w: Warning)
    ensures w in WarningsOf(xs) <==> exists k :: 0 <= k < |xs| && w in xs[k].warnings
  {
    if xs != [] {
      var ys := xs[..|xs| - 1];
      WarningsOfHas(ys, w);
      if exists k :: 0 <= k < |ys| && w in ys[k].warnings {
        var k :| 0 <= k < |ys| && w in ys[k].warnings;
        assert w in xs[k].warnings;
      }
      if k :| 0 <= k < |xs| && w in xs[k].warnings {
        if k < |ys| {
          assert w in ys[k].warnings;
        }
      }
    }
  }

  function Gather(xs: seq<Item>): Decoded
  {
    Decoded(FlagsOf(xs), WarningsOf(xs))
  }

  lemma GatherPrefix(xs: seq<Item>, i: int)
    requires 0 <= i < |xs|
    ensures Gather(xs[..i + 1]) == Decoded(Gather(xs[..i]).flags + [xs[i].flag], Gather(xs[..i]).warnings + xs[i].warnings)
  {
    GatherSnoc(xs[..i], xs[i]);
    assert xs[..i + 1] == xs[..i] + [xs[i]];
  }

  lemma GatherSnoc(xs: seq<Item>, x: Item)
    ensures Gather(xs + [x]) == Decoded(Gather(xs).flags + [x.flag], Gather(xs).warnings + x.warnings)
  {
    assert (xs + [x])[..|xs|] == xs;
  }

  /** One LONG flag: two bytes, high byte first; a value from DEFAULTFLAGS up is reported and zeroed. */
  function LongItem(hi: byte, lo: byte): (r: Item)
    ensures r.flag < DEFAULTFLAGS
    ensures r.warnings == [] <==> r.flag == hi as int * 0x100 + lo as int
    ensures r.warnings != [] ==> r.warnings == [TooLargeFlag(hi as int * 0x100 + lo as int)]
  {
    var v := hi as int * 0x100 + lo as int;
    if v >= DEFAULTFLAGS then Item(0, [TooLargeFlag(v)]) else Item(v, [])
  }

  /** The LONG items of f: the byte pairs, leaving out an odd last byte. */
  function LongItems(f: seq<byte>): (r: seq<Item>)
    ensures |r| == |f| / 2 && forall i :: 0 <= i < |f| / 2 ==> r[i] == LongItem(f[2 * i], f[2 * i + 1])
  {
    seq(|f| / 2, i requires 0 <= i < |f| / 2 => LongItem(f[2 * i], f[2 * i + 1]))
  }

  /** LONG mode: BadFlagvector for an odd length, then the byte pairs. */
  function DecodeLong(f: seq<byte>): Decoded
  {
    var g := Gather(LongItems(f));
    Decoded(g.flags, (if |f| % 2 == 1 then [BadFlagvector] else []) + g.warnings)
  }

  /** The comma-separated fields read so far: those a comma has closed, and the open last one. */
  datatype Fields = Fields(closed: seq<seq<byte>>, open: seq<byte>)

  /**
   * The fields of f, built one byte at a time as the NUM loop of
   * decode_flags reads them: a comma closes the open field, any other
   * byte extends it.
   */
  function Scan(f: seq<byte>): Fields
  {
    if f == [] then Fields([], []) else Step(Scan(f[..|f| - 1]), f[|f| - 1])
  }

  /** Reading one byte: a comma closes the open field, any other byte extends it. */
  function Step(t: Fields, c: byte): (r: Fields)
    ensures c == COMMA ==> r.closed == t.closed + [t.open] && r.open == []
    ensures c != COMMA ==> r.closed == t.closed && r.open == t.open + [c]
  {
    if c == COMMA then Fields(t.closed + [t.open], []) else Fields(t.closed, t.open + [c])
  }

  /** The comma-separated fields of f, empty fields included. */
  function Split(f: seq<byte>): (r: seq<seq<byte>>)
    ensures |r| >= 1 && r[|r| - 1] == Scan(f).open
  {
    Scan(f).closed + [Scan(f).open]
  }

  /** The same step on the prefixes of one sequence. */
  lemma ScanPrefix(f: seq<byte>, p: int)
    requires 0 <= p < |f|
    ensures Scan(f[..p + 1]) == Step(Scan(f[..p]), f[p])
  {
    assert f[..p + 1][..p] == f[..p];
  }

  /** Every comma closes one field. */
  lemma {:induction false} ScanCount(f: seq<byte>)
    ensures |Scan(f).closed| == multiset(f)[COMMA]
  {
    if f != [] {
      var x, c := f[..|f| - 1], f[|f| - 1];
      ScanCount(x);
      assert f == x + [c];
      ScanPrefix(f, |f| - 1);
      assert f[..|f|] == f;
    }
  }

  /** One NUM field: atoi of its text, checked as a flag, with the ZeroFlag warning. */
  function NumItem(piece: seq<byte>): (r: Item)
    ensures r.flag < DEFAULTFLAGS
    ensures ZeroFlag in r.warnings <==> r.flag == 0
  {
    ZeroCheck(NumFlag(AtoiBytes(piece)))
  }

  function NumItems(ps: seq<seq<byte>>): (r: seq<Item>)
    ensures |r| == |ps| && forall k :: 0 <= k < |ps| ==> r[k] == NumItem(ps[k])
  {
    seq(|ps|, k requires 0 <= k < |ps| => NumItem(ps[k]))
  }

  /** NUM mode: one flag per comma-separated field. */
  function DecodeNum(f: seq<byte>): Decoded
  {
    Gather(NumItems(Split(f)))
  }

  /** The bytes taken as flags. */
  function Widen(bs: seq<byte>): (r: seq<Flag>)
    ensures |r| == |bs| && forall k :: 0 <= k < |bs| ==> r[k] == bs[k]
  {
    seq(|bs|, k requires 0 <= k < |bs| => bs[k] as Flag)
  }

  /**
   * decode_flags(flags): no vector (null) for empty input; otherwise the
   * flag vector of the current mode. UNI mode takes the UTF-16 code units
   * of the UTF-8 decoding utf8 gives.
   */
  function DecodeFlags(mode: FlagMode, f: seq<byte>, utf8: seq<byte> -> seq<Flag>): Option<Decoded>
  {
    if |f| == 0 then None
    else
      Some(match mode
        case LONG => DecodeLong(f)
        case NUM => DecodeNum(f)
        case UNI => Decoded(utf8(f), [])
        case CHAR => Decoded(Widen(f), []))
  }

  /** decode_flags on non-empty input, mode by mode. */
  lemma DecodeFlagsCases(f: seq<byte>, utf8: seq<byte> -> seq<Flag>)
    requires f != []
    ensures DecodeFlags(LONG, f, utf8) == Some(DecodeLong(f))
    ensures DecodeFlags(NUM, f, utf8) == Some(DecodeNum(f))
  {
  }

  /** The shape of a LONG vector: half as many flags as bytes, all below DEFAULTFLAGS, BadFlagvector iff the length is odd. */
  lemma LongShape(f: seq<byte>)
    requires |f| > 0
    ensures |DecodeLong(f).flags| == |f| / 2
    ensures forall k :: 0 <= k < |f| / 2 ==> DecodeLong(f).flags[k] < DEFAULTFLAGS
    ensures BadFlagvector in DecodeLong(f).warnings <==> |f| % 2 == 1
    ensures ZeroFlag !in DecodeLong(f).warnings
  {
    var xs := LongItems(f);
    WarningsOfHas(xs, BadFlagvector);
    WarningsOfHas(xs, ZeroFlag);
    forall k | 0 <= k < |xs|
      ensures BadFlagvector !in xs[k].warnings && ZeroFlag !in xs[k].warnings
    {
    }
  }

  /**
   * The shape of a NUM vector: one flag more than there are commas, all
   * below DEFAULTFLAGS, and a ZeroFlag warning exactly when a flag is 0.
   */
  lemma NumShape(f: seq<byte>)
    ensures |DecodeNum(f).flags| == 1 + multiset(f)[COMMA]
    ensures forall k :: 0 <= k < |DecodeNum(f).flags| ==> DecodeNum(f).flags[k] < DEFAULTFLAGS
    ensures ZeroFlag in DecodeNum(f).warnings <==> 0 in DecodeNum(f).flags
  {
    var xs := NumItems(Split(f));
    ScanCount(f);
    WarningsOfHas(xs, ZeroFlag);
    if 0 in DecodeNum(f).flags {
      var k :| 0 <= k < |xs| && FlagsOf(xs)[k] == 0;
      assert ZeroFlag in xs[k].warnings;
    }
  }

  /** The byte text of a flag vector in LONG mode: the two bytes of each flag. */
  function LongText(fs: seq<Flag>): (r: seq<byte>)
    requires forall k :: 0 <= k < |fs| ==> fs[k] != 0
    ensures |r| == 2 * |fs|
  {
    if fs == [] then [] else LongText(fs[..|fs| - 1]) + Latin1(EncodeFlag(LONG, fs[|fs| - 1]))
  }

  lemma {:induction false} LongTextBytes(fs: seq<Flag>)
    requires forall k :: 0 <= k < |fs| ==> fs[k] != 0
    ensures forall i :: 0 <= i < |fs| ==> LongText(fs)[2 * i] as int * 0x100 + LongText(fs)[2 * i + 1] as int == fs[i]
  {
    if fs != [] {
      var gs := fs[..|fs| - 1];
      LongTextBytes(gs);
      forall i | 0 <= i < |fs|
        ensures LongText(fs)[2 * i] as int * 0x100 + LongText(fs)[2 * i + 1] as int == fs[i]
      {
        if i < |gs| {
          assert LongText(fs)[2 * i] == LongText(gs)[2 * i];
          assert LongText(fs)[2 * i + 1] == LongText(gs)[2 * i + 1];
        }
      }
    }
  }

  /** Items that raise no warning leave no warning in the vector. */
  lemma {:induction false} QuietItems(xs: seq<Item>)
    requires forall k :: 0 <= k < |xs| ==> xs[k].warnings == []
    ensures WarningsOf(xs) == []
  {
    if xs != [] {
      QuietItems(xs[..|xs| - 1]);
    }
  }

  /** decode_flags in LONG mode reads back every vector of ordinary flags from its bytes. */
  lemma LongVectorRoundTrip(fs: seq<Flag>, utf8: seq<byte> -> seq<Flag>)
    requires fs != [] && forall k :: 0 <= k < |fs| ==> 0 < fs[k] < DEFAULTFLAGS
    ensures DecodeFlags(LONG, LongText(fs), utf8) == Some(Decoded(fs, []))
  {
    var t := LongText(fs);
    DecodeFlagsCases(t, utf8);
    LongTextBytes(fs);
    QuietPairs(t, fs);
  }

  /** Byte pairs that spell ordinary flags decode to those flags, without a warning. */
  lemma QuietPairs(t: seq<byte>, fs: seq<Flag>)
    requires |t| == 2 * |fs|
    requires forall i :: 0 <= i < |fs| ==> 0 < fs[i] < DEFAULTFLAGS && t[2 * i] as int * 0x100 + t[2 * i + 1] as int == fs[i]
    ensures DecodeLong(t) == Decoded(fs, [])
  {
    var xs := LongItems(t);
    forall i | 0 <= i < |xs|
      ensures xs[i] == Item(fs[i], [])
    {
    }
    QuietItems(xs);
    assert FlagsOf(xs) == fs;
  }

  /** The byte text of a flag vector in NUM mode: the decimal numbers joined by commas. */
  function NumText(fs: seq<Flag>): (r: seq<byte>)
    requires fs != [] && forall k :: 0 <= k < |fs| ==> fs[k] != 0
    ensures r != []
  {
    var last := NumBytes(fs[|fs| - 1]);
    if |fs| == 1 then last else NumText(fs[..|fs| - 1]) + [COMMA] + last
  }

  /** Comma-free bytes from p to q extend the open field. */
  lemma {:induction false} ScanRun(f: seq<byte>, p: int, q: int)
    requires 0 <= p <= q <= |f| && COMMA !in f[p..q]
    ensures Scan(f[..q]) == Fields(Scan(f[..p]).closed, Scan(f[..p]).open + f[p..q])
    decreases q - p
  {
    if q == p {
      assert f[p..q] == [];
    } else {
      assert f[p..q] == f[p..q - 1] + [f[q - 1]];
      assert f[q - 1] in f[p..q];
      ScanRun(f, p, q - 1);
      ScanPrefix(f, q - 1);
    }
  }

  /** The bytes of a nonzero flag in NUM mode: its decimal digits, so no comma. */
  function NumBytes(f: Flag): (r: seq<byte>)
    requires f != 0
    ensures COMMA !in r
  {
    var b := Latin1(EncodeFlag(NUM, f));
    assert forall k :: 0 <= k < |b| ==> Digit(Decimal(f)[k]);
    b
  }

  /** A comma and comma-free bytes add one field. */
  lemma SplitJoin(t: seq<byte>, last: seq<byte>)
    requires COMMA !in last
    ensures Split(t + [COMMA] + last) == Split(t) + [last]
  {
    var f := t + [COMMA] + last;
    var n := |t|;
    assert f[..n] == t && f[n] == COMMA && f[n + 1..] == last && f[..|f|] == f;
    ScanPrefix(f, n);
    ScanRun(f, n + 1, |f|);
    assert [] + last == last;
  }

  /** Comma-free bytes are one field. */
  lemma SplitOne(b: seq<byte>)
    requires COMMA !in b
    ensures Split(b) == [b]
  {
    ScanRun(b, 0, |b|);
    assert b[..0] == [] && b[0..|b|] == b && b[..|b|] == b;
    assert [] + b == b;
  }

  /** Adding the field of one more flag to the fields of the flags before it. */
  lemma FieldsSnoc(sp: seq<seq<byte>>, st: seq<seq<byte>>, fs: seq<Flag>)
    requires fs != [] && forall k :: 0 <= k < |fs| ==> fs[k] != 0
    requires |st| == |fs| - 1 && forall k :: 0 <= k < |st| ==> st[k] == NumBytes(fs[..|fs| - 1][k])
    requires sp == st + [NumBytes(fs[|fs| - 1])]
    ensures |sp| == |fs| && forall k :: 0 <= k < |fs| ==> sp[k] == NumBytes(fs[k])
  {
    forall k | 0 <= k < |fs|
      ensures sp[k] == NumBytes(fs[k])
    {
      if k < |st| {
        assert fs[..|fs| - 1][k] == fs[k];
      }
    }
  }

  /** The fields of NumText are the decimal numbers of the flags. */
  lemma {:induction false} SplitNumText(fs: seq<Flag>)
    requires fs != [] && forall k :: 0 <= k < |fs| ==> fs[k] != 0
    ensures |Split(NumText(fs))| == |fs|
    ensures forall k :: 0 <= k < |fs| ==> Split(NumText(fs))[k] == NumBytes(fs[k])
  {
    var last := NumBytes(fs[|fs| - 1]);
    if |fs| == 1 {
      SplitOne(last);
    } else {
      var gs := fs[..|fs| - 1];
      SplitNumText(gs);
      SplitJoin(NumText(gs), last);
      FieldsSnoc(Split(NumText(fs)), Split(NumText(gs)), fs);
    }
  }

  /** The decimal fields of ordinary flags decode to those flags, without a warning. */
  lemma QuietFields(ps: seq<seq<byte>>, fs: seq<Flag>)
    requires |ps| == |fs| && forall k :: 0 <= k < |fs| ==> 0 < fs[k] < DEFAULTFLAGS && ps[k] == NumBytes(fs[k])
    ensures Gather(NumItems(ps)) == Decoded(fs, [])
  {
    var xs := NumItems(ps);
    forall i | 0 <= i < |xs|
      ensures xs[i] == Item(fs[i], [])
    {
      NumRoundTrip(fs[i], x => []);
    }
    QuietItems(xs);
    assert FlagsOf(xs) == fs;
  }

  /** decode_flags in NUM mode reads back every vector of ordinary flags from its decimal text. */
  lemma NumVectorRoundTrip(fs: seq<Flag>, utf8: seq<byte> -> seq<Flag>)
    requires fs != [] && forall k :: 0 <= k < |fs| ==> 0 < fs[k] < DEFAULTFLAGS
    ensures DecodeFlags(NUM, NumText(fs), utf8) == Some(Decoded(fs, []))
  {
    var t := NumText(fs);
    DecodeFlagsCases(t, utf8);
    SplitNumText(fs);
    QuietFields(Split(t), fs);
  }

  /** The LONG loop of decode_flags. */
  method DecodeLongArray(f: seq<byte>) returns (result: array<Flag>, warnings: seq<Warning>)
    ensures fresh(result) && Decoded(result[..], warnings) == DecodeLong(f)
  {
    var len := |f|;
    warnings := [];
    if len % 2 == 1 {
      warnings := [BadFlagvector];
    }
    ghost var w0 := warnings;
    len := len / 2;
    result := new Flag[len];
    ghost var xs := LongItems(f);
    for i := 0 to len
      invariant result[..i] == Gather(xs[..i]).flags && warnings == w0 + Gather(xs[..i]).warnings
    {
      var it := LongItem(f[2 * i], f[2 * i + 1]);
      GatherPrefix(xs, i);
      result[i] := it.flag;
      assert result[..i + 1] == result[..i] + [it.flag];
      warnings := warnings + it.warnings;
    }
    assert xs[..len] == xs;
  }

  /** The state of the NUM loop of decode_flags before byte p: the closed fields are decoded, the open one starts at src. */
  ghost predicate NumSoFar(f: seq<byte>, p: int, src: int, dest: int, done: seq<Flag>, ws: seq<Warning>)
  {
    0 <= src <= p <= |f| &&
    var t := Scan(f[..p]);
    t.open == f[src..p] && |t.closed| == dest && Gather(NumItems(t.closed)) == Decoded(done, ws)
  }

  /** A comma closes the field that started at src. */
  lemma NumComma(f: seq<byte>, p: int, src: int, dest: int, done: seq<Flag>, ws: seq<Warning>)
    requires NumSoFar(f, p, src, dest, done, ws) && p < |f| && f[p] == COMMA
    ensures NumSoFar(f, p + 1, p + 1, dest + 1, done + [NumItem(f[src..p]).flag], ws + NumItem(f[src..p]).warnings)
  {
    var t := Scan(f[..p]);
    ScanPrefix(f, p);
    assert NumItems(t.closed + [t.open]) == NumItems(t.closed) + [NumItem(f[src..p])];
    GatherSnoc(NumItems(t.closed), NumItem(f[src..p]));
  }

  /** Any other byte extends the field that started at src. */
  lemma NumOther(f: seq<byte>, p: int, src: int, dest: int, done: seq<Flag>, ws: seq<Warning>)
    requires NumSoFar(f, p, src, dest, done, ws) && p < |f| && f[p] != COMMA
    ensures NumSoFar(f, p + 1, src, dest, done, ws)
  {
    ScanPrefix(f, p);
    SliceSnoc(f, src, p);
  }

  lemma SliceSnoc<T>(f: seq<T>, a: int, b: int)
    requires 0 <= a <= b < |f|
    ensures f[a..b + 1] == f[a..b] + [f[b]]
  {
  }

  /** No more fields are closed in a prefix of f than f has commas. */
  lemma ClosedBound(f: seq<byte>, p: int)
    requires 0 <= p <= |f|
    ensures |Scan(f[..p]).closed| <= multiset(f)[COMMA]
  {
    ScanCount(f[..p]);
    assert f == f[..p] + f[p..];
    assert multiset(f) == multiset(f[..p]) + multiset(f[p..]);
  }

  /** After the last byte the open field is the last one, decoded after the loop. */
  lemma NumLast(f: seq<byte>, src: int, dest: int, done: seq<Flag>, ws: seq<Warning>)
    requires NumSoFar(f, |f|, src, dest, done, ws)
    ensures dest == multiset(f)[COMMA]
    ensures DecodeNum(f) == Decoded(done + [NumItem(f[src..]).flag], ws + NumItem(f[src..]).warnings)
  {
    assert f[..|f|] == f;
    ScanCount(f);
    var t := Scan(f);
    assert NumItems(Split(f)) == NumItems(t.closed) + [NumItem(f[src..])];
    GatherSnoc(NumItems(t.closed), NumItem(f[src..]));
  }

  /** One round of the NUM loop of decode_flags: a comma stores the flag of the field it closes. */
  method NumRound(f: seq<byte>, result: array<Flag>, p: int, src: int, dest: int, warnings: seq<Warning>)
    returns (src': int, dest': int, warnings': seq<Warning>)
    requires result.Length == 1 + multiset(f)[COMMA] && 0 <= dest < result.Length && p < |f|
    requires NumSoFar(f, p, src, dest, result[..dest], warnings)
    modifies result
    ensures 0 <= dest' < result.Length && NumSoFar(f, p + 1, src', dest', result[..dest'], warnings')
  {
    ClosedBound(f, p + 1);
    if f[p] == COMMA {
      NumComma(f, p, src, dest, result[..dest], warnings);
      var it := NumItem(f[src..p]);
      result[dest] := it.flag;
      assert result[..dest + 1] == old(result[..dest]) + [it.flag];
      return p + 1, dest + 1, warnings + it.warnings;
    }
    NumOther(f, p, src, dest, result[..dest], warnings);
    return src, dest, warnings;
  }

  /** The NUM loop of decode_flags: an array of one flag per comma-separated field. */
  method DecodeNumArray(f: seq<byte>) returns (result: array<Flag>, warnings: seq<Warning>)
    ensures fresh(result) && Decoded(result[..], warnings) == DecodeNum(f)
  {
    var len := 1 + multiset(f)[COMMA];
    result := new Flag[len];
    warnings := [];
    var dest, src := 0, 0;
    for p := 0 to |f|
      invariant 0 <= dest < result.Length && NumSoFar(f, p, src, dest, result[..dest], warnings)
    {
      src, dest, warnings := NumRound(f, result, p, src, dest, warnings);
    }
    warnings := NumFinish(f, result, src, dest, warnings);
  }

  /** After the NUM loop of decode_flags: the open field gives the last flag. */
  method NumFinish(f: seq<byte>, result: array<Flag>, src: int, dest: int, warnings: seq<Warning>)
    returns (warnings': seq<Warning>)
    requires result.Length == 1 + multiset(f)[COMMA] && 0 <= dest < result.Length
    requires NumSoFar(f, |f|, src, dest, result[..dest], warnings)
    modifies result
    ensures Decoded(result[..], warnings') == DecodeNum(f)
  {
    var it := NumItem(f[src..]);
    NumLast(f, src, dest, result[..dest], warnings);
    result[dest] := it.flag;
    assert result[..] == old(result[..dest]) + [it.flag];
    warnings' := warnings + it.warnings;
  }

  /** The UNI and default loops of decode_flags: the flags copied into a new array. */
  method CopyFlags(us: seq<Flag>) returns (result: array<Flag>)
    ensures fresh(result) && result[..] == us
  {
    result := new Flag[|us|];
    for i := 0 to |us|
      invariant result[..i] == us[..i]
    {
      result[i] := us[i];
    }
  }

  /** decode_flags(flags): the flag array of the current mode, or null for empty input. */
  method DecodeFlagsArray(mode: FlagMode, flags: seq<byte>, utf8: seq<byte> -> seq<Flag>)
    returns (result: array?<Flag>, warnings: seq<Warning>)
    ensures result == null <==> DecodeFlags(mode, flags, utf8).None?
    ensures result == null ==> warnings == []
    ensures result != null ==> fresh(result) && DecodeFlags(mode, flags, utf8) == Some(Decoded(result[..], warnings))
  {
    if |flags| == 0 {
      return null, [];
    }
    match mode
    case LONG =>
      result, warnings := DecodeLongArray(flags);
    case NUM =>
      result, warnings := DecodeNumArray(flags);
    case UNI =>
      result := CopyFlags(utf8(flags));
      warnings := [];
    case CHAR =>
      result := CopyFlags(Widen(flags));
      warnings := [];
  }

  /** A List<ushort> of flags that decode_flags appends to. */
  class FlagList {
    var items: seq<Flag>

    constructor ()
      ensures items == []
    {
      items := [];
    }
  }

  /**
   * decode_flags(result, flags): false for empty input; otherwise the
   * flags are appended to result and the answer is true.
   */
  method DecodeFlagsInto(result: FlagList, mode: FlagMode, flags: seq<byte>, utf8: seq<byte> -> seq<Flag>)
    returns (ok: bool, warnings: seq<Warning>)
    modifies result
    ensures ok <==> |flags| > 0
    ensures |result.items| >= |old(result.items)| && result.items[..|old(result.items)|] == old(result.items)
    ensures !ok ==> result.items == old(result.items) && warnings == []
    ensures ok ==> DecodeFlags(mode, flags, utf8) == Some(Decoded(result.items[|old(result.items)|..], warnings))
  {
    var a;
    a, warnings := DecodeFlagsArray(mode, flags, utf8);
    if a == null {
      return false, warnings;
    }
    ghost var before := result.items;
    result.items := result.items + a[..];
    assert result.items[|before|..] == a[..];
    ok := true;
  }
}
