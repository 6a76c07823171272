/**
 * Hunzip: the reader of hzip files, as a class whose fields advance from
 * call to call. The stream it reads (FileMgr's `fin`) is the byte
 * sequence `input`, consumed from position `rd`; `open` turns false when
 * getbuf closes the stream (`fin = null`). Each method is proved against
 * the functions of HzipCode: getcode builds the tree `Table` describes,
 * getbuf produces what `GetBufSpec` describes, and ReadLine hands out the
 * line `Stripped` describes.
 */
module HzipReader {
  import opened Base
  import opened HzipCode

  /** One unit of the decoded text of a line. */
  datatype Token =
    | Plain(b: byte)               // a byte taken as it is
    | Escaped(b: byte)             // byte 31 and the byte it protects
    | End(b: byte, next: byte)     // the end of the line: a byte below 47, and the byte after it when it is above 32

  /** The bytes below 47 that end a line: all but tab, the escape 31 and space. */
  predicate Ends(b: byte)
  {
    b < 47 && b != 9 && b != 31 && b != 32
  }

  /** A token as ReadLine can read it: a plain byte is no escape and no end; an end at or below 32 has no byte after it. */
  predicate TokenOk(t: Token)
  {
    match t
    case Plain(b) => !Ends(b) && b != 31
    case Escaped(_) => true
    case End(b, next) => Ends(b) && (b <= 32 ==> next == b)
  }

  /** The bytes of the decoded buffer a token takes up. */
  function Raw(t: Token): seq<byte>
  {
    match t
    case Plain(b) => [b]
    case Escaped(b) => [31, b]
    case End(b, next) => if b > 32 then [b, next] else [b]
  }

  /** The bytes of a run of tokens. */
  function Raws(ts: seq<Token>): seq<byte>
  {
    if ts == [] then [] else Raws(ts[..|ts| - 1]) + Raw(ts[|ts| - 1])
  }

  /** The byte a token puts into the line: an end of line becomes "\n". */
  function Char(t: Token): byte
  {
    match t
    case Plain(b) => b
    case Escaped(b) => b
    case End(_, _) => 10
  }

  /** How many bytes of the previous line the next line starts with (30 stands for 9, which is tab). */
  function LeftOf(t: Token): nat
  {
    if !t.End? then 0 else if t.next == 30 then 9 else t.next
  }

  /** How many bytes of the previous line's end the line ends with, besides its own last byte (bytes 33..46). */
  function RightOf(t: Token): nat
  {
    if t.End? && t.b > 32 then t.b - 31 else 0
  }

  /** The array copies of ReadLine stay in range. */
  predicate Fits(prevlen: nat, l: nat, left: nat, right: nat)
  {
    (right != 0 ==> prevlen >= right + 1 && l + right <= BUFSIZE) && left + l + right <= BUFSIZE + 50
  }

  /**
   * The decoded line: the first `left` bytes of the line array, then the
   * gathered bytes, whose last byte gives way to the last right + 1 bytes
   * of the previous line when right is not 0.
   */
  function Joined(prev: seq<byte>, prevlen: nat, body: seq<byte>, left: nat, right: nat): (r: seq<byte>)
    requires Fits(prevlen, |body|, left, right) && prevlen <= |prev| && left <= |prev| && (right != 0 ==> |body| > 0)
    ensures |r| == left + |body| + right
  {
    prev[..left] + (if right == 0 then body else body[..|body| - 1] + prev[prevlen - right - 1..prevlen])
  }

  /** The tokens of a line: each readable, and only the last one may end the line. */
  ghost predicate Lexed(ts: seq<Token>)
  {
    forall k :: 0 <= k < |ts| ==> TokenOk(ts[k]) && (k + 1 < |ts| ==> !ts[k].End?)
  }

  /** The last token, or a plain byte for none. */
  function Tail(ts: seq<Token>): Token
  {
    if ts == [] then Plain(0) else ts[|ts| - 1]
  }

  /** The bytes the tokens put into the line. */
  function Chars(ts: seq<Token>): (r: seq<byte>)
    ensures |r| == |ts| && forall k :: 0 <= k < |ts| ==> r[k] == Char(ts[k])
  {
    seq(|ts|, k requires 0 <= k < |ts| => Char(ts[k]))
  }

  /**
   * ReadLine's reading of a decoded buffer, from the front: 31 protects
   * the byte after it, a byte that Ends the line stops the reading (with
   * the byte after it when it is above 32), any other byte is itself. An
   * escape or an end cut off by the end of bs yields nothing.
   */
  function Lex(bs: seq<byte>): seq<Token>
    decreases |bs|
  {
    if bs == [] then []
    else if bs[0] == 31 then (if |bs| == 1 then [] else [Escaped(bs[1])] + Lex(bs[2..]))
    else if Ends(bs[0]) then
      (if bs[0] <= 32 then [End(bs[0], bs[0])] else if |bs| == 1 then [] else [End(bs[0], bs[1])])
    else [Plain(bs[0])] + Lex(bs[1..])
  }

  /** One more token at the end of a line. */
  lemma Snoc(ts: seq<Token>, t: Token)
    ensures Raws(ts + [t]) == Raws(ts) + Raw(t) && Chars(ts + [t]) == Chars(ts) + [Char(t)] && Tail(ts + [t]) == t
    ensures Lexed(ts) && !Tail(ts).End? && TokenOk(t) ==> Lexed(ts + [t])
  {
    assert (ts + [t])[..|ts|] == ts;
  }

  /** The bytes of the tokens so far followed by those of one more token. */
  lemma RawsAfter(buf: seq<byte>, from: nat, mid: nat, to: nat, ts: seq<Token>, t: Token)
    requires from <= mid <= to <= |buf| && buf[from..mid] == Raws(ts) && buf[mid..to] == Raw(t)
    ensures buf[from..to] == Raws(ts + [t]) && to == from + |Raws(ts + [t])|
  {
    hide Raws, Raw, Chars, Lexed, Tail;
    Snoc(ts, t);
    assert buf[from..to] == buf[from..mid] + buf[mid..to];
  }

  lemma {:induction false} RawsCons(t: Token, ts: seq<Token>)
    ensures Raws([t] + ts) == Raw(t) + Raws(ts)
    decreases |ts|
  {
    if ts != [] {
      var init := ts[..|ts| - 1];
      assert ([t] + ts)[..|ts|] == [t] + init;
      RawsCons(t, init);
    }
  }

  /** Reading back the bytes of readable tokens gives the tokens: the lexer of ReadLine inverts Raws. */
  lemma {:induction false} LexRaws(ts: seq<Token>)
    requires Lexed(ts)
    ensures Lex(Raws(ts)) == ts
    decreases |ts|
  {
    if ts != [] {
      var t, rest := ts[0], ts[1..];
      assert ts == [t] + rest;
      RawsCons(t, rest);
      assert Lexed(rest) by {
        forall k | 0 <= k < |rest| ensures TokenOk(rest[k]) && (k + 1 < |rest| ==> !rest[k].End?) {
          assert rest[k] == ts[k + 1];
        }
      }
      var bs := Raw(t) + Raws(rest);
      match t
      case Plain(b) =>
        assert bs[1..] == Raws(rest);
        LexRaws(rest);
      case Escaped(b) =>
        assert bs[2..] == Raws(rest);
        LexRaws(rest);
      case End(b, next) =>
        assert rest == [];
    }
  }

  lemma EvenStep(x: nat)
    requires x % 2 == 0
    ensures (x + 2) % 2 == 0
  {
  }

  class Hunzip {
    const input: seq<byte>
    var rd: nat
    var open: bool
    var dec: seq<Node>
    var lastbit: nat
    const inbuf: array<byte>
    const outbuf: array<byte>
    var inc: nat
    var inbits: nat
    var bufsiz: int
    var outc: nat
    const line: array<byte>
    var linelen: nat
    const linebuf: array<byte>
    var firstLine: bool

    /** The buffers have their sizes and are distinct. */
    ghost predicate Buffers()
      reads this
    {
      inbuf.Length == BUFSIZE && outbuf.Length == BUFSIZE + 1 && line.Length == BUFSIZE + 50 &&
      linebuf.Length == BUFSIZE && inbuf != linebuf && inbuf != outbuf && outbuf != linebuf
    }

    /** What getbuf needs: the stream position, the bit position in the block, and the tree. */
    ghost predicate Decoding()
      reads this
    {
      Buffers() && rd <= |input| && inc <= inbits <= 8 * BUFSIZE && Linked(Tree(dec, lastbit))
    }

    /** Between calls: the read position inside the decoded buffer, and a tree once a buffer was decoded. */
    ghost predicate Valid()
      reads this
    {
      Buffers() && rd <= |input| && inc <= inbits <= 8 * BUFSIZE &&
      -1 <= bufsiz <= BUFSIZE && outc <= BUFSIZE && (bufsiz > 0 ==> outc < bufsiz) &&
      (bufsiz >= 0 ==> Linked(Tree(dec, lastbit))) && linelen <= line.Length
    }

    /** The field initialisers: the buffers, the empty code table, and no decoded buffer yet. */
    constructor (input: seq<byte>)
      ensures Valid() && this.input == input && rd == 0 && open && dec == [] && lastbit == 0
      ensures inc == 0 && inbits == 0 && bufsiz == -1 && outc == 0 && linelen == 0 && firstLine
      ensures fresh(inbuf) && fresh(outbuf) && fresh(line) && fresh(linebuf)
    {
      this.input := input;
      rd := 0;
      open := true;
      dec := [];
      lastbit := 0;
      inbuf := new byte[BUFSIZE](_ => 0);
      outbuf := new byte[BUFSIZE + 1](_ => 0);
      inc := 0;
      inbits := 0;
      bufsiz := -1;
      outc := 0;
      line := new byte[BUFSIZE + 50](_ => 0);
      linelen := 0;
      linebuf := new byte[BUFSIZE](_ => 0);
      firstLine := true;
    }

    /** fin.Read of count bytes: the bytes left in the stream, up to count. */
    method Read(count: nat) returns (bs: seq<byte>)
      requires rd <= |input|
      modifies this`rd
      ensures bs == Avail(input, old(rd), count) && rd == old(rd) + |bs|
    {
      bs := input[rd..rd + Min(count, |input| - rd)];
      rd := rd + |bs|;
    }

    /** fin.Read(buf, 0, count): the bytes read overwrite the start of buf. */
    method ReadInto(buf: array<byte>, count: nat) returns (got: nat)
      requires rd <= |input| && count <= buf.Length
      modifies this`rd, buf
      ensures var bs := Avail(input, old(rd), count);
        got == |bs| && rd == old(rd) + got && buf[..] == Fill(old(buf[..]), bs)
    {
      var bs := Read(count);
      forall k | 0 <= k < |bs| {
        buf[k] := bs[k];
      }
      got := |bs|;
      assert buf[..] == Fill(old(buf[..]), bs);
    }

    /**
     * The body of the constructor: getcode, then getbuf when the table was
     * read, and -1 otherwise. `thrown` stands for an exception (an empty
     * key, or a stream closed too early); `scratch` is the input block
     * getcode leaves behind.
     */
    method Start(key: Option<seq<byte>>) returns (thrown: bool, ghost scratch: seq<byte>)
      requires Valid() && rd == 0 && open && dec == [] && lastbit == 0 && inc == 0 && inbits == 0 && bufsiz == -1 && outc == 0
      modifies this`rd, this`open, this`dec, this`lastbit, this`inc, this`inbits, this`bufsiz, inbuf, outbuf
      ensures Table(input, key).Throws? ==> thrown
      ensures Table(input, key) == Ok(None) ==> !thrown && bufsiz == -1 && Valid()
      ensures Table(input, key).Ok? && Table(input, key).value.Some? ==>
        var (t, pos) := Table(input, key).value.value;
        Linked(t) && pos <= |input| && |scratch| == BUFSIZE &&
        var g := GetBufSpec(t, input, pos, true, scratch, 0, 0, 0, []);
        (thrown <==> g.Throws?) && (g.Ok? ==> Valid() && Tree(dec, lastbit) == t && bufsiz == g.value.o)
    {
      hide Table, Records, ParseCodes, Round, Scan, BitAt, Mask;
      scratch := [];
      var r := GetCode(key);
      if r.Throws? {
        return true, scratch;
      }
      if !r.value {
        bufsiz := -1;
        return false, scratch;
      }
      scratch := inbuf[..];
      var g := GetBuf();
      if g.Throws? {
        return true, scratch;
      }
      bufsiz := g.value;
      thrown := false;
    }

    /**
     * getcode: the magic "hz0" or "hz1"; for "hz1" a key whose bytes XOR to
     * the checksum byte; the record count, high byte first; and the records,
     * each entered into the tree. The key bytes are used in turn, one per
     * encrypted byte, from the count on. Ok(false) is a format or key error,
     * Throws the index error an empty key causes.
     */
    method GetCode(key: Option<seq<byte>>) returns (r: Res<bool>)
      requires Buffers() && rd == 0 && rd <= |input| && dec == [] && lastbit == 0
      modifies this`rd, this`dec, this`lastbit, inbuf
      ensures rd <= |input|
      ensures r.Throws? <==> Table(input, key).Throws?
      ensures r.Ok? ==> (r.value <==> Table(input, key).value.Some?)
      ensures r == Ok(true) ==> Table(input, key).value.value == (Tree(dec, lastbit), rd) && Linked(Tree(dec, lastbit))
    {
      hide Table, ParseCodes;
      var k, enc, n;
      ghost var base;
      r, k, enc, n, base := Header(key);
      if r != Ok(true) {
        return;
      }
      dec := Blanks(BASEBITREC);
      dec := dec[0 := dec[0].(v0 := 0, v1 := 0)];
      assert Tree(dec, lastbit) == Root();
      var ok := EnterAll(k, enc, n, base);
      return Ok(ok);
    }

    /**
     * The head of getcode: the magic, the key checksum for "hz1" and the
     * record count, decrypted with the first two key bytes. Ok(true) when
     * the n records that follow are to be read with key k, the key index
     * at enc.
     */
    method Header(key: Option<seq<byte>>) returns (r: Res<bool>, k: Option<seq<byte>>, enc: nat, n: nat, ghost base: nat)
      requires Buffers() && rd == 0 && rd <= |input|
      modifies this`rd, inbuf
      ensures rd <= |input|
      ensures r != Ok(true) ==> (r.Throws? <==> Table(input, key).Throws?) && (r.Ok? ==> Table(input, key) == Ok(None))
      ensures r == Ok(true) ==> KeyOk(k) && KeyIndex(k, enc, 2) &&
                                base + 2 == rd && Table(input, key) == Ok(Built(ParseCodes(input, rd, k, base, n)))
    {
      hide ParseCodes, Table, Built;
      k, enc, n, base := None, 0, 0, 0;
      var ok;
      ok, k := Magic(key);
      if !ok {
        return Ok(false), k, enc, n, base;
      }
      base := rd;
      var c := Read(2);
      if |c| != 2 {
        return Ok(false), k, enc, n, base;
      }
      var c0, c1 := c[0], c[1];
      if k.Some? {
        if |k.value| == 0 {
          return Throws, k, enc, n, base;
        }
        c0 := XorByte(c0, k.value[enc]);
        NextEncMod(0, |k.value|);
        enc := NextEnc(enc, |k.value|);
        c1 := XorByte(c1, k.value[enc]);
      }
      assert [c0, c1] == Decrypt(input[base..base + 2], k, 0);
      n := (c0 as int) * 256 + c1 as int;
      assert n == Count(Decrypt(input[base..base + 2], k, 0));
      assert Table(input, key) == Records(input, base, k);
      r := Ok(true);
    }

    /**
     * The magic of getcode and, for "hz1", the key checksum: true when the
     * record count comes next, to be decrypted with k.
     */
    method Magic(key: Option<seq<byte>>) returns (ok: bool, k: Option<seq<byte>>)
      requires Buffers() && rd == 0 && rd <= |input|
      modifies this`rd, inbuf
      ensures rd <= |input|
      ensures !ok ==> Table(input, key) == Ok(None)
      ensures ok ==> 3 <= rd && Table(input, key) == Records(input, rd, k)
    {
      hide Records;
      k := None;
      var got := ReadInto(inbuf, 3);
      if got != 3 || !(inbuf[0] == 0x68 && inbuf[1] == 0x7A && (inbuf[2] == 0x30 || inbuf[2] == 0x31)) {
        return false, k;
      }
      assert inbuf[..3] == input[..3];
      if inbuf[2] == 0x31 {
        if key.None? {
          return false, k;
        }
        var cs := Read(1);
        if |cs| != 1 {
          return false, k;
        }
        var sum := Checksum(key.value);
        if sum != cs[0] {
          return false, k;
        }
        k := key;
      }
      ok := true;
    }

    /** The checksum byte of a key: its bytes XORed together. */
    method Checksum(key: seq<byte>) returns (sum: byte)
      ensures sum == XorAll(key)
    {
      sum := 0;
      var i := 0;
      while i < |key|
        invariant i <= |key| && sum == XorAll(key[..i])
      {
        assert key[..i + 1][..i] == key[..i];
        sum := XorByte(sum, key[i]);
        i := i + 1;
      }
      assert key[..i] == key;
    }

    /**
     * The record loop of getcode: n records, each read and entered into
     * the tree, the key stream starting at base.
     */
    method EnterAll(k: Option<seq<byte>>, enc0: nat, n: nat, ghost base: nat) returns (ok: bool)
      requires Buffers() && base + 2 == rd <= |input| && KeyOk(k) && KeyIndex(k, enc0, 2) && Tree(dec, lastbit) == Root()
      modifies this`rd, this`dec, this`lastbit, inbuf
      ensures rd <= |input|
      ensures var all := ParseCodes(input, old(rd), k, base, n);
        (ok <==> all.Some?) && (ok ==> Built(all).value == (Tree(dec, lastbit), rd) && Linked(Tree(dec, lastbit)))
    {
      ghost var all := ParseCodes(input, rd, k, base, n);
      ghost var whole := Prepend([], all);
      RootLinked();
      var enc := enc0;
      var i := 0;
      ghost var t: nat := 2;
      ghost var m: nat := n;
      ghost var done: seq<Code> := [];
      while i < n
        invariant i <= n && m == n - i && Entered(k, enc, base, t, m, done, whole)
      {
        ok, enc, t, m, done := EnterNext(k, enc, base, t, m, done, whole);
        if !ok {
          return;
        }
        i := i + 1;
      }
      assert ParseCodes(input, rd, k, base, m) == Some(([], rd)) && done + [] == done;
      assert all.Some? && [] + all.value.0 == all.value.0;
      assert all == Some((done, rd));
      return true;
    }

    /**
     * The state of that loop: the records done are in the tree, the stream
     * is at the t-th encrypted byte with the key index in step, and the m
     * records still to read complete whole.
     */
    ghost predicate Entered(k: Option<seq<byte>>, enc: nat, base: nat, t: nat, m: nat, done: seq<Code>, whole: Option<(seq<Code>, nat)>)
      reads this
    {
      Buffers() && base + 2 <= rd <= |input| && KeyOk(k) && t == rd - base && KeyIndex(k, enc, t) &&
      AllOk(done) && Tree(dec, lastbit) == Build(Root(), done) && Prepend(done, ParseCodes(input, rd, k, base, m)) == whole
    }

    /** One round of that loop: a record read and entered, or false when it is cut short. */
    method EnterNext(k: Option<seq<byte>>, enc0: nat, ghost base: nat, ghost t: nat, ghost m: nat, ghost done: seq<Code>, ghost whole: Option<(seq<Code>, nat)>)
      returns (ok: bool, enc: nat, ghost t': nat, ghost m': nat, ghost done': seq<Code>)
      requires Entered(k, enc0, base, t, m, done, whole) && m > 0
      modifies this`rd, this`dec, this`lastbit, inbuf
      ensures rd <= |input|
      ensures !ok ==> whole == None
      ensures ok ==> m' + 1 == m && Entered(k, enc, base, t', m', done', whole)
    {
      hide ParseCode, ParseCodes, Prepend, Build, AllOk, KeyIndex, Decrypt;
      ghost var pos := rd;
      var r0, r1, l, nl;
      m' := m - 1;
      ok, r0, r1, l, nl, enc, t' := ReadRecord(k, enc0, base, t);
      done' := done;
      if !ok {
        ParseCodesCut(input, pos, k, base, m', done);
        return;
      }
      ParseCodesStep(input, pos, k, base, m', done, Code(r0, r1, l, inbuf[..nl]), rd);
      done' := Admit(r0, r1, l, nl, done);
    }

    /** The record read entered into the tree, after the records done. */
    method Admit(c0: byte, c1: byte, l: nat, nl: nat, ghost done: seq<Code>) returns (ghost done': seq<Code>)
      requires Buffers() && AllOk(done) && Tree(dec, lastbit) == Build(Root(), done) && nl <= BUFSIZE && l <= 8 * nl
      modifies this`dec, this`lastbit
      ensures Buffers() && done' == done + [Code(c0, c1, l, inbuf[..nl])] && AllOk(done')
      ensures Tree(dec, lastbit) == Build(Root(), done')
    {
      done' := done + [Code(c0, c1, l, inbuf[..nl])];
      Enter(c0, c1, l, nl);
      assert done'[..|done|] == done;
    }

    /**
     * One record of getcode: the two leaf bytes, the length byte l and the
     * (l >> 3) + 1 code bytes, which land at the start of the input block;
     * each decrypted when a key is in use, the key index advancing before
     * each byte.
     */
    method ReadRecord(k: Option<seq<byte>>, enc0: nat, ghost base: nat, ghost t: nat) returns (ok: bool, c0: byte, c1: byte, l: byte, nl: nat, enc: nat, ghost t': nat)
      requires base < rd <= |input| && inbuf.Length == BUFSIZE && KeyOk(k)
      requires t == rd - base && KeyIndex(k, enc0, t)
      modifies this`rd, inbuf
      ensures old(rd) <= rd <= |input| && t' == rd - base
      ensures ok <==> ParseCode(input, old(rd), k, t).Some?
      ensures ok ==> nl <= BUFSIZE && ParseCode(input, old(rd), k, t) == Some((Code(c0, c1, l, inbuf[..nl]), rd))
      ensures ok ==> KeyIndex(k, enc, t')
    {
      hide Decrypt;
      ghost var pos := rd;
      nl := 0;
      ok, c0, c1, l, enc := ReadHead(k, enc0, t);
      t' := rd - base;
      if !ok {
        return;
      }
      nl := l / 8 + 1;
      var got := ReadInto(inbuf, nl);
      t' := rd - base;
      if got != nl {
        return false, c0, c1, l, nl, enc, t';
      }
      ghost var raw := inbuf[..nl];
      assert raw == input[pos + 3..pos + 3 + nl];
      if k.Some? {
        enc := DecryptBlock(k.value, nl, enc, t + 3, t');
      }
    }

    /** The two leaf bytes and the length byte of a record, decrypted, the key index advancing before each. */
    method ReadHead(k: Option<seq<byte>>, enc0: nat, ghost t: nat) returns (ok: bool, c0: byte, c1: byte, l: byte, enc: nat)
      requires rd <= |input| && KeyOk(k) && t >= 1
      requires KeyIndex(k, enc0, t)
      modifies this`rd
      ensures old(rd) <= rd <= |input|
      ensures ok <==> old(rd) + 3 <= |input|
      ensures ok ==> rd == old(rd) + 3 && [c0, c1] == Decrypt(input[old(rd)..old(rd) + 2], k, t) &&
                     [l] == Decrypt(input[old(rd) + 2..old(rd) + 3], k, t + 2)
      ensures ok ==> KeyIndex(k, enc, t + 3)
    {
      enc := enc0;
      c0, c1, l := 0, 0, 0;
      var c := Read(2);
      if |c| != 2 {
        return false, c0, c1, l, enc;
      }
      c0, c1 := c[0], c[1];
      if k.Some? {
        NextEncMod(t - 1, |k.value|);
        enc := NextEnc(enc, |k.value|);
        c0 := XorByte(c0, k.value[enc]);
        NextEncMod(t, |k.value|);
        enc := NextEnc(enc, |k.value|);
        c1 := XorByte(c1, k.value[enc]);
      }
      var lb := Read(1);
      if |lb| != 1 {
        return false, c0, c1, l, enc;
      }
      l := lb[0];
      if k.Some? {
        NextEncMod(t + 1, |k.value|);
        enc := NextEnc(enc, |k.value|);
        l := XorByte(l, k.value[enc]);
      }
      ok := true;
    }

    /** Decrypts the first n bytes of the input block in place, the u-th encrypted byte first. */
    method DecryptBlock(key: seq<byte>, n: nat, enc0: nat, ghost u: nat, ghost u': nat) returns (enc: nat)
      requires |key| > 0 && n <= inbuf.Length && u' == u + n && KeyIndex(Some(key), enc0, u)
      modifies inbuf
      ensures inbuf[..n] == Decrypt(old(inbuf[..n]), Some(key), u) && inbuf[n..] == old(inbuf[n..])
      ensures KeyIndex(Some(key), enc, u')
    {
      ghost var raw := inbuf[..n];
      enc := enc0;
      var j := 0;
      while j < n
        invariant j <= n && enc == (u + j - 1) % |key|
        invariant forall q :: 0 <= q < j ==> inbuf[q] == XorByte(raw[q], key[(u + q) % |key|])
        invariant forall q :: j <= q < inbuf.Length ==> inbuf[q] == old(inbuf[q])
      {
        NextEncMod(u + j - 1, |key|);
        enc := NextEnc(enc, |key|);
        inbuf[j] := XorByte(inbuf[j], key[enc]);
        j := j + 1;
      }
      DecryptAt(raw, key, u);
      assert inbuf[..n] == Decrypt(raw, Some(key), u);
    }

    /**
     * The walk of one code from the root, bit by bit (the most significant
     * bit of each byte first), adding a node for every missing child, then
     * the leaf bytes stored at the node reached. The table grows by
     * BASEBITREC nodes when lastbit reaches its size (getcode's
     * allocatedbit, which always equals that size).
     */
    method Enter(c0: byte, c1: byte, l: nat, nl: nat)
      requires Linked(Tree(dec, lastbit)) && inbuf.Length == BUFSIZE && nl <= BUFSIZE && l <= 8 * nl
      modifies this`dec, this`lastbit
      ensures Tree(dec, lastbit) == Insert(old(Tree(dec, lastbit)), Code(c0, c1, l, inbuf[..nl]))
    {
      hide BitAt, Mask, Grow;
      ghost var bits := inbuf[..nl];
      ghost var t0 := Tree(dec, lastbit);
      var p: nat := 0;
      var j := 0;
      while j < l
        invariant j <= l && Linked(Tree(dec, lastbit)) && p <= lastbit
        invariant Extend(Tree(dec, lastbit), bits, l, j, p) == Extend(t0, bits, l, 0, 0)
      {
        var b := Bit(j, nl);
        p := Descend(p, b);
        j := j + 1;
      }
      dec := dec[p := dec[p].(c0 := c0, c1 := c1)];
    }

    /** Bit j of the first nl bytes of the input block, the highest bit of each byte first. */
    method Bit(j: nat, nl: nat) returns (b: bool)
      requires inbuf.Length == BUFSIZE && nl <= BUFSIZE && j < 8 * nl
      ensures b == BitAt(inbuf[..nl], j)
    {
      b := inbuf[j / 8] / Mask(j % 8) % 2 == 1;
    }

    /** One step of that walk: the child of p0 by bit b, added when it is missing. */
    method Descend(p0: nat, b: bool) returns (p: nat)
      requires Linked(Tree(dec, lastbit)) && p0 <= lastbit
      modifies this`dec, this`lastbit
      ensures var q := Child(old(dec[p0]), b);
        if q != 0 then Tree(dec, lastbit) == old(Tree(dec, lastbit)) && p == q
        else Tree(dec, lastbit) == Grow(old(Tree(dec, lastbit)), p0, b) && p == lastbit
    {
      ghost var before := Tree(dec, lastbit);
      p := Child(dec[p0], b);
      if p == 0 {
        lastbit := lastbit + 1;
        if lastbit == |dec| {
          dec := dec + Blanks(BASEBITREC);
        }
        dec := dec[lastbit := dec[lastbit].(v0 := 0, v1 := 0)];
        dec := dec[p0 := if b then dec[p0].(v1 := lastbit) else dec[p0].(v0 := lastbit)];
        p := lastbit;
        assert Tree(dec, lastbit) == Grow(before, p0, b);
      }
    }

    /** What getbuf leaves behind, as GetBufSpec gives it: the exception, or the count, the output bytes and the reader's state. */
    ghost predicate Holds(g: Res<Got>, r: Res<int>)
      reads this, inbuf, outbuf
    {
      (r.Throws? <==> g.Throws?) &&
      (g.Ok? ==> r == Ok(g.value.o) && |g.value.out| <= outbuf.Length && outbuf[..|g.value.out|] == g.value.out &&
                 rd == g.value.rd && open == g.value.open && inbuf[..] == g.value.block &&
                 inc == g.value.inc && inbits == g.value.inbits)
    }

    /**
     * getbuf: decodes into the output buffer until it is full, until the
     * last node ends the data (closing the stream), or until a short block
     * ends the stream without it (-1); a new block is read whenever the
     * bit position is back at 0.
     */
    method GetBuf() returns (r: Res<int>)
      requires Decoding()
      modifies this`rd, this`open, this`inc, this`inbits, inbuf, outbuf
      ensures Decoding()
      ensures Holds(GetBufSpec(Tree(dec, lastbit), input, old(rd), old(open), old(inbuf[..]), old(inc), old(inbits), 0, []), r)
      ensures r.Ok? ==> -1 <= r.value <= BUFSIZE
    {
      ghost var t := Tree(dec, lastbit);
      assert outbuf[..0] == [];
      ghost var g0 := GetBufSpec(t, input, rd, open, inbuf[..], inc, inbits, 0, outbuf[..0]);
      var p: nat := 0;
      var o: nat := 0;
      while true
        invariant Decoding() && p <= lastbit && o < BUFSIZE && o % 2 == 0
        invariant GetBufSpec(t, input, rd, open, inbuf[..], inc, inbits, p, outbuf[..o]) == g0
        decreases |input| - rd, if inc == 0 then 0 else 1
      {
        var fin;
        fin, r, p, o := Block(p, o, g0);
        if fin {
          return;
        }
      }
    }

    /**
     * One round of getbuf's outer loop: a new block when the bit position
     * is 0 (an exception when the stream is closed), then the bits of the
     * block. `fin` tells that getbuf returns r; otherwise it goes on with
     * the next block at node p with o bytes produced.
     */
    method Block(p0: nat, o0: nat, ghost g: Res<Got>) returns (fin: bool, r: Res<int>, p: nat, o: nat)
      requires Decoding() && p0 <= lastbit && o0 < BUFSIZE && o0 % 2 == 0
      requires g == GetBufSpec(Tree(dec, lastbit), input, rd, open, inbuf[..], inc, inbits, p0, outbuf[..o0])
      modifies this`rd, this`open, this`inc, this`inbits, inbuf, outbuf
      ensures Decoding() && (r.Ok? ==> -1 <= r.value <= BUFSIZE)
      ensures if fin then Holds(g, r)
        else p <= lastbit && o < BUFSIZE && o % 2 == 0 && inc == 0 && old(rd) <= rd && (old(rd) < rd || old(inc) != 0) &&
             g == GetBufSpec(Tree(dec, lastbit), input, rd, open, inbuf[..], inc, inbits, p, outbuf[..o])
    {
      hide GetBufSpec, Round, Scan;
      if inc == 0 && !open {
        GetBufClosed(Tree(dec, lastbit), input, rd, inbuf[..], inbits, p0, outbuf[..o0]);
        return true, Throws, p0, o0;
      }
      ghost var t := Tree(dec, lastbit);
      ghost var out := outbuf[..o0];
      ghost var bs := if inc == 0 then Avail(input, rd, BUFSIZE) else [];
      GetBufRound(t, input, rd, open, inbuf[..], inc, inbits, p0, out, bs, Fill(inbuf[..], bs), if inc == 0 then 8 * |bs| else inbits);
      if inc == 0 {
        var got := ReadInto(inbuf, BUFSIZE);
        inbits := 8 * got;
      } else {
        assert Fill(inbuf[..], []) == inbuf[..];
      }
      assert outbuf[..o0] == out;
      assert g == Round(t, input, rd, open, inbuf[..], inbits, Scan(t, inbuf[..], inc, inbits, p0, out));
      fin, r, p, o := Decide(p0, o0, g);
    }

    /** The rest of that round: the bits of the block, then Round's choice. */
    method Decide(p0: nat, o0: nat, ghost g: Res<Got>) returns (fin: bool, r: Res<int>, p: nat, o: nat)
      requires Decoding() && p0 <= lastbit && o0 < BUFSIZE && o0 % 2 == 0
      requires g == Round(Tree(dec, lastbit), input, rd, open, inbuf[..], inbits, Scan(Tree(dec, lastbit), inbuf[..], inc, inbits, p0, outbuf[..o0]))
      modifies this`open, this`inc, outbuf
      ensures Decoding() && (r.Ok? ==> -1 <= r.value <= BUFSIZE)
      ensures if fin then Holds(g, r)
        else p <= lastbit && o < BUFSIZE && o % 2 == 0 && inc == 0 && inbits == 8 * BUFSIZE &&
             g == GetBufSpec(Tree(dec, lastbit), input, rd, open, inbuf[..], inc, inbits, p, outbuf[..o])
    {
      hide GetBufSpec, Scan;
      var stop;
      stop, p, o := ScanBlock(p0, o0);
      if stop == Full {
        return true, Ok(o), p, o;
      }
      if stop == Last {
        if !open {
          return true, Throws, p, o;
        }
        open := false;
        return true, Ok(o), p, o;
      }
      inc := 0;
      if inbits == 8 * BUFSIZE {
        return false, Ok(0), p, o;
      }
      return true, Ok(-1), p, o;
    }

    /** The inner loop of getbuf over the bits inc..inbits of the block, starting at node p0 with o0 bytes produced. */
    method ScanBlock(p0: nat, o0: nat) returns (stop: Stop, p: nat, o: nat)
      requires Linked(Tree(dec, lastbit)) && p0 <= lastbit && inbuf.Length == BUFSIZE && outbuf.Length == BUFSIZE + 1
      requires inc <= inbits <= 8 * BUFSIZE && o0 < BUFSIZE && o0 % 2 == 0 && inbuf != outbuf
      modifies this`inc, outbuf
      ensures var s := Scan(Tree(dec, lastbit), inbuf[..], old(inc), inbits, p0, old(outbuf[..o0]));
        stop == s.stop && p == s.p && inc == s.inc && o == |s.out| && outbuf[..o] == s.out
    {
      hide BitAt, Mask, Linked, Child;
      ghost var t := Tree(dec, lastbit);
      ghost var bs := inbuf[..];
      ghost var s0 := Scan(t, bs, inc, inbits, p0, outbuf[..o0]);
      p, o := p0, o0;
      while inc < inbits
        invariant inc <= inbits && p <= lastbit && o < BUFSIZE && o % 2 == 0 && unchanged(inbuf)
        invariant t == Tree(dec, lastbit) && Linked(t) && |bs| == BUFSIZE
        invariant Scan(t, bs, inc, inbits, p, outbuf[..o]) == s0
        decreases inbits - inc
      {
        var done;
        done, stop, p, o := ScanBit(p, o, bs);
        if done {
          assert s0 == Scanned(stop, 0, inc, outbuf[..o]);
          return;
        }
        inc := inc + 1;
      }
      return Ran, p, o;
    }

    /**
     * One bit of that loop: the child of p by the bit; when it is missing,
     * the end of the data at the last node (with the odd byte), or the
     * node's two bytes and a restart at the root's child by the same bit,
     * unless the buffer is then full.
     */
    method ScanBit(p0: nat, o0: nat, ghost bs: seq<byte>) returns (done: bool, stop: Stop, p: nat, o: nat)
      requires Scanning(p0, o0, bs)
      modifies outbuf
      ensures o <= BUFSIZE && (done ==> p == 0) && (!done ==> p <= lastbit && o < BUFSIZE && o % 2 == 0)
      ensures Scan(Tree(dec, lastbit), bs, inc, inbits, p0, old(outbuf[..o0])) ==
        if done then Scanned(stop, 0, inc, outbuf[..o]) else Scan(Tree(dec, lastbit), bs, inc + 1, inbits, p, outbuf[..o])
    {
      hide BitAt, Mask;
      var b := BitAt(inbuf[..], inc);
      p := Child(dec[p0], b);
      if p != 0 {
        return false, Ran, p, o0;
      }
      if p0 == lastbit {
        o := EmitLast(o0, bs);
        return true, Last, 0, o;
      }
      done, stop, p, o := EmitPair(p0, o0, b, bs);
    }

    /** What ScanBit needs: the walk at node p0 with o0 (even) bytes out, bit inc of the block bs still to go. */
    ghost predicate Scanning(p0: nat, o0: nat, bs: seq<byte>)
      reads this, inbuf, outbuf
    {
      Linked(Tree(dec, lastbit)) && p0 <= lastbit && inbuf.Length == BUFSIZE && outbuf.Length == BUFSIZE + 1 &&
      inc < inbits <= 8 * BUFSIZE && o0 < BUFSIZE && o0 % 2 == 0 && inbuf != outbuf && inbuf[..] == bs
    }

    /** Falling off the last node: the odd byte when its c0 says so, and the end of the data. */
    method EmitLast(o0: nat, ghost bs: seq<byte>) returns (o: nat)
      requires Scanning(lastbit, o0, bs) && Child(dec[lastbit], BitAt(bs, inc)) == 0
      modifies outbuf
      ensures o <= BUFSIZE
      ensures Scan(Tree(dec, lastbit), bs, inc, inbits, lastbit, old(outbuf[..o0])) == Scanned(Last, 0, inc, outbuf[..o])
    {
      ghost var before := outbuf[..o0];
      o := o0;
      if dec[lastbit].c0 != 0 {
        outbuf[o] := dec[lastbit].c1;
        assert outbuf[..o + 1] == before + [dec[lastbit].c1];
        o := o + 1;
      }
    }

    /** Falling off another node: its two bytes, then the root's child by the same bit unless the buffer is full. */
    method EmitPair(p0: nat, o0: nat, b: bool, ghost bs: seq<byte>) returns (done: bool, stop: Stop, p: nat, o: nat)
      requires Scanning(p0, o0, bs) && p0 != lastbit && b == BitAt(bs, inc) && Child(dec[p0], b) == 0
      modifies outbuf
      ensures o <= BUFSIZE && (done ==> p == 0) && (!done ==> p <= lastbit && o < BUFSIZE && o % 2 == 0)
      ensures Scan(Tree(dec, lastbit), bs, inc, inbits, p0, old(outbuf[..o0])) ==
        if done then Scanned(stop, 0, inc, outbuf[..o]) else Scan(Tree(dec, lastbit), bs, inc + 1, inbits, p, outbuf[..o])
    {
      hide BitAt, Mask;
      ghost var before := outbuf[..o0];
      outbuf[o0] := dec[p0].c0;
      outbuf[o0 + 1] := dec[p0].c1;
      assert outbuf[..o0 + 2] == before + [dec[p0].c0, dec[p0].c1];
      o := o0 + 2;
      if o == BUFSIZE {
        return true, Full, 0, o;
      }
      EvenStep(|before|);
      return false, Ran, Child(dec[0], b), o;
    }

    /**
     * ++outc, and at bufsiz a new decoded buffer: getbuf, or -1 when
     * `guarded` (the test fin != null at the end of each round of
     * ReadLine) and the stream is closed. `thrown` is an exception of
     * getbuf; `refill` tells that a new buffer was asked for.
     */
    method Advance(guarded: bool) returns (thrown: bool, ghost refill: bool)
      requires Valid() && (bufsiz > 0 || outc == 0)
      modifies this`rd, this`open, this`inc, this`inbits, this`bufsiz, this`outc, inbuf, outbuf
      ensures refill <==> old(outc) + 1 == old(bufsiz)
      ensures !thrown ==> Valid()
      ensures !refill ==> !thrown && outc == old(outc) + 1 && bufsiz == old(bufsiz) && unchanged(outbuf)
      ensures refill ==> outc == 0
      ensures refill && guarded && !old(open) ==> !thrown && bufsiz == -1
      ensures refill && !(guarded && !old(open)) ==>
        Holds(GetBufSpec(Tree(dec, lastbit), input, old(rd), old(open), old(inbuf[..]), old(inc), old(inbits), 0, []),
              if thrown then Throws else Ok(bufsiz))
    {
      hide GetBufSpec, Round, Scan, BitAt, Mask;
      thrown, refill := false, false;
      outc := outc + 1;
      if outc == bufsiz {
        refill := true;
        outc := 0;
        if guarded && !open {
          bufsiz := -1;
          return;
        }
        var g := GetBuf();
        if g.Throws? {
          return true, refill;
        }
        bufsiz := g.value;
      }
    }

    /**
     * One round of ReadLine's loop: the token at outc (see Peek), then outc
     * moves past its last byte.
     */
    method Take(l: nat) returns (thrown: bool, eol: bool, left: nat, right: nat, ghost tok: Token, ghost refill: bool)
      requires Valid() && l < bufsiz
      modifies this`rd, this`open, this`inc, this`inbits, this`bufsiz, this`outc, inbuf, outbuf, linebuf
      ensures thrown ==> refill
      ensures !thrown ==> Valid() && TokenOk(tok) && linebuf[l] == Char(tok) && linebuf[..l] == old(linebuf[..l])
      ensures !thrown ==> eol == tok.End? && left == LeftOf(tok) && right == RightOf(tok) && left < 256
      ensures !refill ==> bufsiz == old(bufsiz) && unchanged(outbuf) && outc == old(outc) + |Raw(tok)| &&
                          outbuf[old(outc)..outc] == Raw(tok)
    {
      hide GetBufSpec, Round, Scan, Holds, Linked, BitAt, Mask, TokenOk, Char, LeftOf, RightOf, Raw;
      thrown, eol, left, right, tok, refill := Peek(l);
      if thrown {
        return;
      }
      var thrown', refill' := Advance(true);
      thrown, refill := thrown', refill || refill';
    }

    /**
     * The token at outc: its byte goes to linebuf[l]; an escape takes the
     * next byte in its place; a byte that ends the line puts "\n" there
     * and sets left (and right, reading one more byte when it is above
     * 32). outc is left on the token's last byte.
     */
    method Peek(l: nat) returns (thrown: bool, eol: bool, left: nat, right: nat, ghost tok: Token, ghost refill: bool)
      requires Valid() && l < bufsiz
      modifies this`rd, this`open, this`inc, this`inbits, this`bufsiz, this`outc, inbuf, outbuf, linebuf
      ensures thrown ==> refill
      ensures !thrown ==> Valid() && (bufsiz > 0 || outc == 0)
      ensures !thrown ==> TokenOk(tok) && linebuf[l] == Char(tok) && linebuf[..l] == old(linebuf[..l])
      ensures !thrown ==> eol == tok.End? && left == LeftOf(tok) && right == RightOf(tok) && left < 256
      ensures !refill ==> bufsiz == old(bufsiz) && unchanged(outbuf) && outc < bufsiz &&
                          outc + 1 == old(outc) + |Raw(tok)| && outbuf[old(outc)..outc + 1] == Raw(tok)
    {
      hide GetBufSpec, Round, Scan, Holds, Linked, BitAt, Mask;
      ghost var o0 := outc;
      var c := outbuf[outc];
      linebuf[l] := c;
      thrown, eol, left, right, refill := false, false, 0, 0, false;
      tok := Plain(c);
      if c == 31 {
        thrown, refill := Advance(false);
        if thrown {
          return;
        }
        linebuf[l] := outbuf[outc];
        tok := Escaped(outbuf[outc]);
        if !refill {
          assert outbuf[o0..outc + 1] == [outbuf[o0], outbuf[outc]];
        }
      } else if c != 9 && c != 32 && c < 47 {
        var next := c;
        if c > 32 {
          right := c - 31;
          thrown, refill := Advance(false);
          if thrown {
            return;
          }
          next := outbuf[outc];
          if !refill {
            assert outbuf[o0..outc + 1] == [outbuf[o0], outbuf[outc]];
          }
        }
        left := if next == 30 then 9 else next;
        linebuf[l] := 10;
        eol := true;
        tok := End(c, next);
      }
    }

    /** The first l tokens of a line are in linebuf, and left and right come from the last one. */
    ghost predicate Gathered(l: nat, toks: seq<Token>, eol: bool, left: nat, right: nat)
      reads linebuf
    {
      l == |toks| <= BUFSIZE && l <= linebuf.Length && Lexed(toks) && linebuf[..l] == Chars(toks) &&
      eol == Tail(toks).End? && left == LeftOf(Tail(toks)) && right == RightOf(Tail(toks)) && left < 256
    }

    /** The tokens were read from outc0 on in the buffer of size bufsiz0, which is still the current one. */
    ghost predicate Consumed(outc0: nat, bufsiz0: int, toks: seq<Token>)
      reads this, outbuf
    {
      bufsiz == bufsiz0 && outc == outc0 + |Raws(toks)| && outc <= outbuf.Length && outbuf[outc0..outc] == Raws(toks)
    }

    /**
     * The loop of ReadLine: tokens into linebuf until one ends the line or
     * l reaches bufsiz. What it consumed is tied to the buffer it started
     * on when no new buffer was needed.
     */
    method Gather() returns (thrown: bool, l: nat, left: nat, right: nat, ghost toks: seq<Token>, ghost refilled: bool)
      requires Valid() && bufsiz >= 0
      modifies this`rd, this`open, this`inc, this`inbits, this`bufsiz, this`outc, inbuf, outbuf, linebuf
      ensures thrown ==> refilled
      ensures !thrown ==> Valid() && Gathered(l, toks, Tail(toks).End?, left, right) && (!Tail(toks).End? ==> l >= bufsiz)
      ensures !refilled ==> unchanged(outbuf) && Consumed(old(outc), old(bufsiz), toks)
      ensures old(bufsiz) == 0 ==> toks == [] && !refilled
    {
      thrown, l, left, right, toks, refilled := false, 0, 0, 0, [], false;
      var eol := false;
      while l < bufsiz && !eol
        invariant Valid() && Gathered(l, toks, eol, left, right)
        invariant !refilled ==> unchanged(outbuf) && Consumed(old(outc), old(bufsiz), toks)
        invariant old(bufsiz) == 0 ==> toks == [] && !refilled
        decreases BUFSIZE - l
      {
        ghost var refill: bool;
        thrown, eol, left, right, toks, refill := Step(l, toks, old(outc), old(bufsiz));
        refilled := refilled || refill;
        if thrown {
          return;
        }
        l := l + 1;
      }
    }

    /** A round of that loop, as Take reads it, added to the tokens so far. */
    method Step(l: nat, ghost toks: seq<Token>, ghost outc0: nat, ghost bufsiz0: int)
      returns (thrown: bool, eol: bool, left: nat, right: nat, ghost toks': seq<Token>, ghost refill: bool)
      requires Valid() && l < bufsiz && Gathered(l, toks, false, 0, 0)
      modifies this`rd, this`open, this`inc, this`inbits, this`bufsiz, this`outc, inbuf, outbuf, linebuf
      ensures thrown ==> refill
      ensures !thrown ==> Valid() && Gathered(l + 1, toks', eol, left, right)
      ensures !refill ==> unchanged(outbuf) && (old(Consumed(outc0, bufsiz0, toks)) ==> Consumed(outc0, bufsiz0, toks'))
    {
      hide Lexed, Chars, Raws, Raw, Tail, Char, TokenOk, LeftOf, RightOf;
      ghost var o0 := outc;
      ghost var tok: Token;
      thrown, eol, left, right, tok, refill := Take(l);
      toks' := toks + [tok];
      if thrown {
        return;
      }
      Snoc(toks, tok);
      if !refill && old(Consumed(outc0, bufsiz0, toks)) {
        RawsAfter(outbuf[..], outc0, o0, outc, toks, tok);
      }
      assert linebuf[..l + 1] == linebuf[..l] + [Char(tok)];
    }

    /**
     * The copies at the end of ReadLine: the last right + 1 bytes of the
     * previous line over the gathered line's last byte, then the gathered
     * bytes into line at left. `thrown` stands for the exception of an
     * Array.Copy out of range.
     */
    method Assemble(l: nat, left: nat, right: nat) returns (thrown: bool)
      requires Buffers() && linelen <= line.Length && l <= BUFSIZE && left < 256 && (right != 0 ==> l > 0)
      modifies this`linelen, line, linebuf
      ensures thrown <==> !Fits(old(linelen), l, left, right)
      ensures !thrown ==> linelen <= line.Length && line[..linelen] == Joined(old(line[..]), old(linelen), old(linebuf[..l]), left, right)
    {
      ghost var body := linebuf[..l];
      ghost var prev := line[..];
      var n := l;
      if right != 0 {
        if linelen < right + 1 || l + right > BUFSIZE {
          return true;
        }
        n := Carry(l, right);
      }
      if left + n > BUFSIZE + 50 {
        return true;
      }
      Place(n, left);
      thrown := false;
    }

    /** The first copy: the last right + 1 bytes of the previous line over the gathered line's last byte. */
    method Carry(l: nat, right: nat) returns (n: nat)
      requires Buffers() && linelen <= line.Length && 0 < l && 0 < right && right + 1 <= linelen && l + right <= BUFSIZE
      modifies linebuf
      ensures n == l + right && linebuf[..n] == old(linebuf[..l])[..l - 1] + line[linelen - right - 1..linelen]
    {
      ghost var body := linebuf[..l];
      forall k | 0 <= k < right + 1 {
        linebuf[l - 1 + k] := line[linelen - right - 1 + k];
      }
      n := l + right;
      assert linebuf[..n] == body[..l - 1] + line[linelen - right - 1..linelen];
    }

    /** The second copy: the n gathered bytes into line at left, which then ends after them. */
    method Place(n: nat, left: nat)
      requires Buffers() && n <= BUFSIZE && left + n <= BUFSIZE + 50
      modifies this`linelen, line
      ensures linelen == left + n && line[..linelen] == old(line[..])[..left] + linebuf[..n]
    {
      forall k | 0 <= k < n {
        line[left + k] := linebuf[k];
      }
      linelen := left + n;
      assert line[..linelen] == old(line[..])[..left] + linebuf[..n];
    }

    /** The line handed out: without a byte order mark on the first line, and without "\n" or "\r\n". */
    method Trim() returns (s: seq<byte>)
      requires linelen <= line.Length
      modifies this`firstLine
      ensures s == Stripped(line[..linelen], old(firstLine)) && !firstLine
    {
      ghost var ls := line[..linelen];
      ghost var first := firstLine;
      var i := 0;
      if firstLine {
        var bom := linelen >= 3 && line[0] == 0xEF && line[1] == 0xBB && line[2] == 0xBF;
        assert bom == Bom(ls);
        if bom {
          i := 3;
        }
        firstLine := false;
      }
      var n := linelen - i;
      if n > 0 && line[linelen - 1] == 10 {
        n := n - 1;
        if n > 0 && line[linelen - 2] == 13 {
          n := n - 1;
        }
      }
      StrippedAt(ls, first, i, n);
      s := line[i..i + n];
      assert s == ls[i..i + n];
    }

    /**
     * ReadLine: false (Ok(None)) once bufsiz is -1; otherwise the next
     * line, rebuilt from the previous one by left and right, and stripped.
     * An exception of getbuf or of an array copy is Throws.
     */
    method ReadLine() returns (r: Res<Option<seq<byte>>>, ghost toks: seq<Token>, ghost refilled: bool)
      requires Valid()
      modifies this, inbuf, outbuf, line, linebuf
      ensures old(bufsiz) == -1 <==> r == Ok(None)
      ensures r.Throws? ==> refilled || !Fits(old(linelen), |toks|, LeftOf(Tail(toks)), RightOf(Tail(toks)))
      ensures r.Ok? && r.value.Some? ==>
        Valid() && Lexed(toks) && (!Tail(toks).End? ==> |toks| >= bufsiz) &&
        Fits(old(linelen), |toks|, LeftOf(Tail(toks)), RightOf(Tail(toks))) && old(linelen) <= line.Length &&
        line[..linelen] == Joined(old(line[..]), old(linelen), Chars(toks), LeftOf(Tail(toks)), RightOf(Tail(toks))) &&
        r.value.value == Stripped(line[..linelen], old(firstLine)) && !firstLine
      ensures r.Ok? && r.value.Some? && !refilled ==>
        bufsiz == old(bufsiz) && outc == old(outc) + |Raws(toks)| && Raws(toks) == old(outbuf[..])[old(outc)..outc]
      ensures old(bufsiz) == 0 ==> r == Ok(Some([])) && bufsiz == 0 && linelen == 0
    {
      hide Lexed, Chars, Raws, Joined, GetBufSpec, Scan, Round, Holds, Linked, BitAt, Mask;
      toks, refilled := [], false;
      if bufsiz == -1 {
        return Ok(None), toks, refilled;
      }
      var thrown, l, left, right;
      thrown, l, left, right, toks, refilled := Gather();
      if thrown {
        return Throws, toks, refilled;
      }
      assert l == |toks| && left == LeftOf(Tail(toks)) && right == RightOf(Tail(toks)) && linebuf[..l] == Chars(toks);
      assert !refilled ==> outbuf[old(outc)..outc] == old(outbuf[..])[old(outc)..outc];
      thrown := Assemble(l, left, right);
      if thrown {
        return Throws, toks, refilled;
      }
      var s := Trim();
      r := Ok(Some(s));
    }
  }
}
