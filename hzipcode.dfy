/**
 * The hzip format that Hunzip.cs reads: the header and its optional key
 * stream, the code records and the decoding tree they build, the walk of
 * the compressed bits through that tree, and the trimming of a decoded
 * line.
 */
module HzipCode {
  import opened Base

  /** The size of the input block and of the decoded buffer. */
  const BUFSIZE: nat := 65536
  /** The tree table grows by this many nodes at a time. */
  const BASEBITREC: nat := 5000

  /** One node of the decoding tree: the two bytes of a leaf and the two children (0: none). */
  datatype Node = Node(c0: byte, c1: byte, v0: nat, v1: nat)

  const Blank: Node := Node(0, 0, 0, 0)

  /** The node table (`dec`, grown by Array.Resize) and the highest node in use. */
  datatype Tree = Tree(dec: seq<Node>, lastbit: nat)

  /** Node lastbit is allocated and every link points at a node in use. */
  predicate Linked(t: Tree)
  {
    t.lastbit < |t.dec| &&
    forall q :: 0 <= q < |t.dec| ==> t.dec[q].v0 <= t.lastbit && t.dec[q].v1 <= t.lastbit
  }

  /** The child of a node by one bit. */
  function Child(n: Node, b: bool): nat
  {
    if b then n.v1 else n.v0
  }

  /** 1 << (7 - r). */
  function Mask(r: nat): nat
    requires r < 8
  {
    [128, 64, 32, 16, 8, 4, 2, 1][r]
  }

  /** Bit j of bs, the most significant bit of each byte first. */
  predicate BitAt(bs: seq<byte>, j: nat)
    requires j < 8 * |bs|
  {
    bs[j / 8] / Mask(j % 8) % 2 == 1
  }

  /** The exclusive or of two bytes. */
  function XorByte(a: byte, b: byte): (r: byte)
    ensures r == Xor(a, b)
  {
    assert Pow2(8) == 0x100;
    XorBelow(a, b, 8);
    Xor(a, b)
  }

  /** The exclusive or of all key bytes, the checksum stored after the header of an encrypted file. */
  function XorAll(k: seq<byte>): byte
  {
    if k == [] then 0 else XorByte(XorAll(k[..|k| - 1]), k[|k| - 1])
  }

  /** A key is given and usable: an empty one makes decryption index out of range. */
  predicate KeyOk(key: Option<seq<byte>>)
  {
    key.Some? ==> |key.value| > 0
  }

  /** The key stream: the t-th encrypted byte of the file is XORed with key[t mod |key|]. */
  function Decrypt(bs: seq<byte>, key: Option<seq<byte>>, t: nat): (r: seq<byte>)
    requires KeyOk(key)
    ensures |r| == |bs|
    ensures key.None? ==> r == bs
    decreases |bs|
  {
    if key.None? || bs == [] then bs
    else [XorByte(bs[0], key.value[t % |key.value|])] + Decrypt(bs[1..], key, t + 1)
  }

  /** Each byte is XORed with the key byte its position in the file selects. */
  lemma {:induction false} DecryptAt(bs: seq<byte>, key: seq<byte>, t: nat)
    requires |key| > 0
    ensures forall j :: 0 <= j < |bs| ==> Decrypt(bs, Some(key), t)[j] == XorByte(bs[j], key[(t + j) % |key|])
    decreases |bs|
  {
    if bs != [] {
      DecryptAt(bs[1..], key, t + 1);
      forall j | 1 <= j < |bs| ensures Decrypt(bs, Some(key), t)[j] == XorByte(bs[j], key[(t + j) % |key|]) {
        assert bs[1..][j - 1] == bs[j];
      }
    }
  }

  /** Decryption undoes itself: the key stream encrypts too. */
  lemma DecryptTwice(bs: seq<byte>, key: Option<seq<byte>>, t: nat)
    requires KeyOk(key)
    ensures Decrypt(Decrypt(bs, key, t), key, t) == bs
  {
    if key.Some? {
      var r := Decrypt(Decrypt(bs, key, t), key, t);
      DecryptAt(bs, key.value, t);
      DecryptAt(Decrypt(bs, key, t), key.value, t);
      forall j | 0 <= j < |bs| ensures r[j] == bs[j] {
        XorTwice(bs[j], key.value[(t + j) % |key.value|]);
      }
    }
  }

  /** enc is the index of the key byte that decrypted the byte before the t-th encrypted one. */
  predicate KeyIndex(key: Option<seq<byte>>, enc: nat, t: nat)
  {
    key.Some? && |key.value| > 0 ==> 0 < t && enc == (t - 1) % |key.value|
  }

  /** The next key index after enc: `if (++enc >= key.Length) enc = 0`. */
  function NextEnc(enc: nat, n: nat): nat
  {
    if enc + 1 >= n then 0 else enc + 1
  }

  lemma NextEncMod(u: nat, n: nat)
    requires n > 0
    ensures NextEnc(u % n, n) == (u + 1) % n
  {
    var q, r := u / n, u % n;
    assert u == q * n + r && 0 <= r < n;
    if r + 1 < n {
      ModUnique(u + 1, n, q, r + 1);
    } else {
      ModUnique(u + 1, n, q + 1, 0);
    }
  }

  lemma MulGap(a: nat, b: nat, n: nat)
    requires a < b
    ensures a * n + n <= b * n
  {
    var d := b - a;
    assert b * n == a * n + d * n;
    assert d * n >= n by { assert d * n == n + (d - 1) * n; }
  }

  lemma ModUnique(x: nat, n: nat, q: nat, r: nat)
    requires n > 0 && x == q * n + r && r < n
    ensures x % n == r
  {
    var q2, r2 := x / n, x % n;
    assert x == q2 * n + r2 && 0 <= r2 < n;
    if q2 < q {
      MulGap(q2, q, n);
    } else if q2 > q {
      MulGap(q, q2, n);
    }
  }

  function Min(a: nat, b: nat): nat
  {
    if a <= b then a else b
  }

  /** fin.Read(buf, 0, count) on the stream input positioned at rd: the bytes left, up to count. */
  function Avail(input: seq<byte>, rd: nat, count: nat): (r: seq<byte>)
    requires rd <= |input|
    ensures |r| <= count && rd + |r| <= |input| && r == input[rd..rd + |r|]
    ensures |r| < count ==> rd + |r| == |input|
  {
    input[rd..rd + Min(count, |input| - rd)]
  }

  /** A code record: the two bytes of a leaf, the code length in bits and the code's bytes. */
  datatype Code = Code(c0: byte, c1: byte, len: nat, bits: seq<byte>)

  /** The code length fits the bytes that hold it. */
  predicate CodeOk(c: Code)
  {
    c.len <= 8 * |c.bits|
  }

  predicate AllOk(cs: seq<Code>)
  {
    forall k :: 0 <= k < |cs| ==> CodeOk(cs[k])
  }

  /**
   * The record at pos, whose first byte is the t-th encrypted byte: two
   * leaf bytes, the length byte l and (l >> 3) + 1 code bytes; None when
   * the file ends first.
   */
  function ParseCode(input: seq<byte>, pos: nat, key: Option<seq<byte>>, t: nat): (r: Option<(Code, nat)>)
    requires pos <= |input| && KeyOk(key)
    ensures r.Some? ==> CodeOk(r.value.0) && r.value.0.len / 8 + 1 == |r.value.0.bits|
    ensures r.Some? ==> r.value.1 == pos + 3 + |r.value.0.bits| <= |input|
  {
    if pos + 3 > |input| then None
    else
      var c := Decrypt(input[pos..pos + 2], key, t);
      var l := Decrypt(input[pos + 2..pos + 3], key, t + 2)[0];
      var nl := l / 8 + 1;
      if pos + 3 + nl > |input| then None
      else Some((Code(c[0], c[1], l, Decrypt(input[pos + 3..pos + 3 + nl], key, t + 3)), pos + 3 + nl))
  }

  /**
   * n records from pos on and the position after them; the key stream
   * starts at base, so the record at pos begins with the (pos - base)-th
   * encrypted byte.
   */
  function ParseCodes(input: seq<byte>, pos: nat, key: Option<seq<byte>>, base: nat, n: nat): (r: Option<(seq<Code>, nat)>)
    requires base <= pos <= |input| && KeyOk(key)
    ensures r.Some? ==> |r.value.0| == n && AllOk(r.value.0) && pos <= r.value.1 <= |input|
    decreases n
  {
    if n == 0 then Some(([], pos))
    else
      var head := ParseCode(input, pos, key, pos - base);
      if head.None? then None
      else Prepend([head.value.0], ParseCodes(input, head.value.1, key, base, n - 1))
  }

  /** The records cs read before the rest. */
  function Prepend(cs: seq<Code>, r: Option<(seq<Code>, nat)>): Option<(seq<Code>, nat)>
  {
    match r
    case None => None
    case Some((rest, e)) => Some((cs + rest, e))
  }

  /** Reading one record and then the others is reading all of them. */
  lemma ParseCodesStep(input: seq<byte>, pos: nat, key: Option<seq<byte>>, base: nat, n: nat, done: seq<Code>, c: Code, next: nat)
    requires base <= pos <= |input| && KeyOk(key)
    requires ParseCode(input, pos, key, pos - base) == Some((c, next))
    ensures next <= |input|
    ensures Prepend(done, ParseCodes(input, pos, key, base, n + 1)) ==
            Prepend(done + [c], ParseCodes(input, next, key, base, n))
  {
    PrependTwice(done, c, ParseCodes(input, pos, key, base, n + 1), ParseCodes(input, next, key, base, n));
  }

  /** A record cut short cuts the table short. */
  lemma ParseCodesCut(input: seq<byte>, pos: nat, key: Option<seq<byte>>, base: nat, n: nat, done: seq<Code>)
    requires base <= pos <= |input| && KeyOk(key)
    requires ParseCode(input, pos, key, pos - base).None?
    ensures Prepend(done, ParseCodes(input, pos, key, base, n + 1)) == None
  {
  }

  lemma PrependTwice(done: seq<Code>, c: Code, whole: Option<(seq<Code>, nat)>, r: Option<(seq<Code>, nat)>)
    requires whole == Prepend([c], r)
    ensures Prepend(done, whole) == Prepend(done + [c], r)
  {
    match r
    case None =>
    case Some((cs, e)) =>
      assert done + ([c] + cs) == done + [c] + cs;
  }

  /**
   * The code table of a file, read by getcode: the magic "hz0" or "hz1",
   * for "hz1" the key checksum, the big-endian record count and the
   * records; the tree they build and the stream position after them, None
   * when getcode returns false, Throws when the key is empty.
   */
  function Table(input: seq<byte>, key: Option<seq<byte>>): Res<Option<(Tree, nat)>>
  {
    if |input| < 3 || !(input[0] == 0x68 && input[1] == 0x7A && (input[2] == 0x30 || input[2] == 0x31)) then Ok(None)
    else if input[2] == 0x31 then
      if key.None? || |input| < 4 || XorAll(key.value) != input[3] then Ok(None)
      else Records(input, 4, key)
    else Records(input, 3, None)
  }

  /** The record count at start and the records after it. */
  function Records(input: seq<byte>, start: nat, key: Option<seq<byte>>): Res<Option<(Tree, nat)>>
    requires start <= |input|
  {
    if start + 2 > |input| then Ok(None)
    else if !KeyOk(key) then Throws
    else
      Ok(Built(ParseCodes(input, start + 2, key, start, Count(Decrypt(input[start..start + 2], key, 0)))))
  }

  /** The tree the records read build from the root, and the position after them. */
  function Built(r: Option<(seq<Code>, nat)>): Option<(Tree, nat)>
    requires r.Some? ==> AllOk(r.value.0)
  {
    if r.None? then None else Some((Build(Root(), r.value.0), r.value.1))
  }

  /** The record count: two bytes, the high one first. */
  function Count(c: seq<byte>): nat
    requires |c| == 2
  {
    (c[0] as int) * 256 + c[1] as int
  }

  /** The table after Array.Resize to BASEBITREC nodes: a root without children. */
  function Root(): Tree
  {
    Tree(Blanks(BASEBITREC), 0)
  }

  /** n nodes without bytes or children, as Array.Resize adds them. */
  function Blanks(n: nat): (r: seq<Node>)
    ensures |r| == n && forall i :: 0 <= i < n ==> r[i] == Blank
  {
    seq(n, _ => Blank)
  }

  lemma RootLinked()
    ensures Linked(Root()) && Root().dec[0].v0 == 0 && Root().dec[0].v1 == 0
  {
  }

  /** A new node for the missing child b of node p: the table grows by BASEBITREC when it is full. */
  function Grow(t: Tree, p: nat, b: bool): (r: Tree)
    requires Linked(t) && p <= t.lastbit
    ensures Linked(r) && r.lastbit == t.lastbit + 1 && Child(r.dec[p], b) == r.lastbit
    ensures r.dec[r.lastbit].v0 == 0 && r.dec[r.lastbit].v1 == 0
  {
    var lb := t.lastbit + 1;
    var d := if lb == |t.dec| then t.dec + Blanks(BASEBITREC) else t.dec;
    var d1 := d[lb := d[lb].(v0 := 0, v1 := 0)];
    var n := d1[p];
    Tree(d1[p := if b then n.(v1 := lb) else n.(v0 := lb)], lb)
  }

  /** Following the code bits j.. from node p and adding the nodes missing: the tree and the node reached. */
  function Extend(t: Tree, bits: seq<byte>, len: nat, j: nat, p: nat): (r: (Tree, nat))
    requires Linked(t) && p <= t.lastbit && len <= 8 * |bits|
    ensures Linked(r.0) && r.1 <= r.0.lastbit && t.lastbit <= r.0.lastbit
    decreases len - j
  {
    if j >= len then (t, p)
    else
      var b := BitAt(bits, j);
      var q := Child(t.dec[p], b);
      if q != 0 then Extend(t, bits, len, j + 1, q)
      else var g := Grow(t, p, b); Extend(g, bits, len, j + 1, g.lastbit)
  }

  /** The leaf bytes stored at node p. */
  function Label(t: Tree, p: nat, c0: byte, c1: byte): (r: Tree)
    requires p < |t.dec|
  {
    Tree(t.dec[p := t.dec[p].(c0 := c0, c1 := c1)], t.lastbit)
  }

  /** A record entered into the tree: its bytes stored at the node its code leads to. */
  function Insert(t: Tree, c: Code): (r: Tree)
    requires Linked(t) && CodeOk(c)
    ensures Linked(r)
  {
    var (u, p) := Extend(t, c.bits, c.len, 0, 0);
    Label(u, p, c.c0, c.c1)
  }

  /** The records entered in order. */
  function Build(t: Tree, cs: seq<Code>): (r: Tree)
    requires Linked(t) && AllOk(cs)
    ensures Linked(r)
    decreases |cs|
  {
    if cs == [] then t else Insert(Build(t, cs[..|cs| - 1]), cs[|cs| - 1])
  }

  /** The node the code bits j.. lead to from p, when every link on the way exists. */
  function Walk(t: Tree, bits: seq<byte>, len: nat, j: nat, p: nat): (r: Option<nat>)
    requires Linked(t) && p <= t.lastbit && len <= 8 * |bits|
    ensures r.Some? ==> r.value <= t.lastbit
    decreases len - j
  {
    if j >= len then Some(p)
    else
      var q := Child(t.dec[p], BitAt(bits, j));
      if q == 0 then None else Walk(t, bits, len, j + 1, q)
  }

  /** u keeps every node and every link of t. */
  predicate Keeps(t: Tree, u: Tree)
  {
    t.lastbit <= u.lastbit && |t.dec| <= |u.dec| &&
    forall q :: 0 <= q < |t.dec| && q <= t.lastbit ==>
      (t.dec[q].v0 != 0 ==> u.dec[q].v0 == t.dec[q].v0) && (t.dec[q].v1 != 0 ==> u.dec[q].v1 == t.dec[q].v1)
  }

  lemma KeepsTrans(t: Tree, u: Tree, w: Tree)
    requires Keeps(t, u) && Keeps(u, w)
    ensures Keeps(t, w)
  {
  }

  /** A new node only fills a missing link. */
  lemma GrowKeeps(t: Tree, p: nat, b: bool)
    requires Linked(t) && p <= t.lastbit && Child(t.dec[p], b) == 0
    ensures Keeps(t, Grow(t, p, b))
  {
  }

  lemma {:induction false} ExtendKeeps(t: Tree, bits: seq<byte>, len: nat, j: nat, p: nat)
    requires Linked(t) && p <= t.lastbit && len <= 8 * |bits|
    ensures Keeps(t, Extend(t, bits, len, j, p).0)
    decreases len - j
  {
    hide BitAt, Mask;
    if j < len {
      var b := BitAt(bits, j);
      var q := Child(t.dec[p], b);
      if q != 0 {
        ExtendKeeps(t, bits, len, j + 1, q);
      } else {
        var g := Grow(t, p, b);
        GrowKeeps(t, p, b);
        ExtendKeeps(g, bits, len, j + 1, g.lastbit);
        KeepsTrans(t, g, Extend(g, bits, len, j + 1, g.lastbit).0);
      }
    }
  }

  /** Storing leaf bytes keeps every link. */
  lemma InsertKeeps(t: Tree, c: Code)
    requires Linked(t) && CodeOk(c)
    ensures Keeps(t, Insert(t, c))
  {
    hide BitAt, Mask;
    var (u, p) := Extend(t, c.bits, c.len, 0, 0);
    ExtendKeeps(t, c.bits, c.len, 0, 0);
    KeepsTrans(t, u, Label(u, p, c.c0, c.c1));
  }

  /** A walk in t is the same walk in a tree that keeps t's links. */
  lemma {:induction false} WalkKept(t: Tree, u: Tree, bits: seq<byte>, len: nat, j: nat, p: nat)
    requires Linked(t) && Linked(u) && Keeps(t, u) && p <= t.lastbit && len <= 8 * |bits|
    requires Walk(t, bits, len, j, p).Some?
    ensures Walk(u, bits, len, j, p) == Walk(t, bits, len, j, p)
    decreases len - j
  {
    hide BitAt, Mask;
    if j < len {
      WalkKept(t, u, bits, len, j + 1, Child(t.dec[p], BitAt(bits, j)));
    }
  }

  /** The walk of the code through the extended tree ends at the node Extend reports. */
  lemma {:induction false} ExtendWalk(t: Tree, bits: seq<byte>, len: nat, j: nat, p: nat)
    requires Linked(t) && p <= t.lastbit && len <= 8 * |bits|
    ensures var (u, e) := Extend(t, bits, len, j, p); Walk(u, bits, len, j, p) == Some(e)
    decreases len - j, 1
  {
    hide BitAt, Mask;
    if j < len {
      if Child(t.dec[p], BitAt(bits, j)) != 0 {
        ExtendWalkLinked(t, bits, len, j, p);
      } else {
        ExtendWalkGrown(t, bits, len, j, p);
      }
    }
  }

  /** ExtendWalk where the link for bit j exists: the walk goes on from its target. */
  lemma {:induction false} ExtendWalkLinked(t: Tree, bits: seq<byte>, len: nat, j: nat, p: nat)
    requires Linked(t) && p <= t.lastbit && len <= 8 * |bits| && j < len && Child(t.dec[p], BitAt(bits, j)) != 0
    ensures var (u, e) := Extend(t, bits, len, j, p); Walk(u, bits, len, j, p) == Some(e)
    decreases len - j, 0
  {
    hide BitAt, Mask;
    var b := BitAt(bits, j);
    var q := Child(t.dec[p], b);
    var u := Extend(t, bits, len, j, p).0;
    ExtendWalk(t, bits, len, j + 1, q);
    ExtendKeeps(t, bits, len, j + 1, q);
    assert Child(u.dec[p], b) == q;
  }

  /** ExtendWalk where the link for bit j is missing: the walk goes on from the new node. */
  lemma {:induction false} ExtendWalkGrown(t: Tree, bits: seq<byte>, len: nat, j: nat, p: nat)
    requires Linked(t) && p <= t.lastbit && len <= 8 * |bits| && j < len && Child(t.dec[p], BitAt(bits, j)) == 0
    ensures var (u, e) := Extend(t, bits, len, j, p); Walk(u, bits, len, j, p) == Some(e)
    decreases len - j, 0
  {
    hide BitAt, Mask, Grow;
    var b := BitAt(bits, j);
    var u := Extend(t, bits, len, j, p).0;
    var g := Grow(t, p, b);
    ExtendWalk(g, bits, len, j + 1, g.lastbit);
    ExtendKeeps(g, bits, len, j + 1, g.lastbit);
    assert Child(u.dec[p], b) == g.lastbit;
  }

  /** After a record is entered, its code leads from the root to a node holding its two bytes. */
  lemma InsertFinds(t: Tree, c: Code)
    requires Linked(t) && CodeOk(c)
    ensures var r := Insert(t, c); var w := Walk(r, c.bits, c.len, 0, 0);
      w.Some? && r.dec[w.value].c0 == c.c0 && r.dec[w.value].c1 == c.c1
  {
    hide BitAt, Mask;
    var (u, p) := Extend(t, c.bits, c.len, 0, 0);
    ExtendWalk(t, c.bits, c.len, 0, 0);
    WalkKept(u, Label(u, p, c.c0, c.c1), c.bits, c.len, 0, 0);
  }

  /** Every record read is reachable in the finished tree, and so are the paths t had. */
  lemma {:induction false} BuildReaches(t: Tree, cs: seq<Code>)
    requires Linked(t) && AllOk(cs)
    ensures Keeps(t, Build(t, cs))
    ensures forall k :: 0 <= k < |cs| ==> Walk(Build(t, cs), cs[k].bits, cs[k].len, 0, 0).Some?
    decreases |cs|
  {
    hide BitAt, Mask;
    if cs != [] {
      var front, c := cs[..|cs| - 1], cs[|cs| - 1];
      var b := Build(t, front);
      BuildReaches(t, front);
      InsertKeeps(b, c);
      KeepsTrans(t, b, Insert(b, c));
      InsertFinds(b, c);
      forall k | 0 <= k < |cs| ensures Walk(Build(t, cs), cs[k].bits, cs[k].len, 0, 0).Some? {
        if k < |front| {
          assert front[k] == cs[k];
          WalkKept(b, Insert(b, c), cs[k].bits, cs[k].len, 0, 0);
        }
      }
    }
  }

  /** The last record read for a code decides the bytes at its node. */
  lemma BuildLast(t: Tree, cs: seq<Code>)
    requires Linked(t) && AllOk(cs) && cs != []
    ensures var r := Build(t, cs); var c := cs[|cs| - 1]; var w := Walk(r, c.bits, c.len, 0, 0);
      w.Some? && r.dec[w.value].c0 == c.c0 && r.dec[w.value].c1 == c.c1
  {
    hide BitAt, Mask;
    InsertFinds(Build(t, cs[..|cs| - 1]), cs[|cs| - 1]);
  }

  /** How a pass over the block stopped: at its end, with a full buffer, or at the last node. */
  datatype Stop = Ran | Full | Last

  /** Where a pass stopped: the node reached, the bit position and the bytes produced so far. */
  datatype Scanned = Scanned(stop: Stop, p: nat, inc: nat, out: seq<byte>)

  /**
   * The bits inc..inbits of the block walked from node p: falling off a
   * node emits its two bytes and goes on from the root's child by the same
   * bit, stopping when the buffer is full; falling off node lastbit ends
   * the data, with one more byte when its c0 says the text had an odd
   * length.
   */
  function Scan(t: Tree, bs: seq<byte>, inc: nat, inbits: nat, p: nat, out: seq<byte>): (r: Scanned)
    requires Linked(t) && p <= t.lastbit && inc <= inbits <= 8 * |bs| && |out| < BUFSIZE && |out| % 2 == 0
    ensures r.p <= t.lastbit && inc <= r.inc <= inbits && |out| <= |r.out| <= BUFSIZE && r.out[..|out|] == out
    ensures r.stop == Ran ==> r.inc == inbits && |r.out| < BUFSIZE && |r.out| % 2 == 0
    ensures r.stop == Full ==> |r.out| == BUFSIZE && r.inc < inbits
    decreases inbits - inc
  {
    if inc == inbits then Scanned(Ran, p, inc, out)
    else
      var b := BitAt(bs, inc);
      var q := Child(t.dec[p], b);
      if q != 0 then Scan(t, bs, inc + 1, inbits, q, out)
      else if p == t.lastbit then
        Scanned(Last, 0, inc, if t.dec[p].c0 != 0 then out + [t.dec[p].c1] else out)
      else
        var o := out + [t.dec[p].c0, t.dec[p].c1];
        if |o| == BUFSIZE then Scanned(Full, 0, inc, o)
        else Scan(t, bs, inc + 1, inbits, Child(t.dec[0], b), o)
  }

  /** The two bytes of each node in qs, in order. */
  function Pairs(t: Tree, qs: seq<nat>): seq<byte>
    requires forall k :: 0 <= k < |qs| ==> qs[k] < |t.dec|
  {
    if qs == [] then [] else [t.dec[qs[0]].c0, t.dec[qs[0]].c1] + Pairs(t, qs[1..])
  }

  /** A node with a missing child, other than the last one. */
  predicate Leaf(t: Tree, q: nat)
  {
    q < t.lastbit && q < |t.dec| && (t.dec[q].v0 == 0 || t.dec[q].v1 == 0)
  }

  /** The single byte the last node adds to a text of odd length. */
  function Odd(t: Tree): seq<byte>
    requires t.lastbit < |t.dec|
  {
    if t.dec[t.lastbit].c0 != 0 then [t.dec[t.lastbit].c1] else []
  }

  /** Every node of qs is a leaf. */
  predicate Leaves(t: Tree, qs: seq<nat>)
  {
    forall k :: 0 <= k < |qs| ==> Leaf(t, qs[k])
  }

  /** A pass emits the two bytes of each leaf it falls off (qs, in order), and at the end of the data the odd byte. */
  lemma {:induction false} ScanLeaves(t: Tree, bs: seq<byte>, inc: nat, inbits: nat, p: nat, out: seq<byte>) returns (qs: seq<nat>)
    requires Linked(t) && p <= t.lastbit && inc <= inbits <= 8 * |bs| && |out| < BUFSIZE && |out| % 2 == 0
    ensures Leaves(t, qs)
    ensures var r := Scan(t, bs, inc, inbits, p, out);
      r.out == out + Pairs(t, qs) + (if r.stop == Last then Odd(t) else [])
    decreases inbits - inc, 1
  {
    hide BitAt, Mask;
    qs := [];
    if inc < inbits {
      var q := Child(t.dec[p], BitAt(bs, inc));
      if q != 0 {
        qs := ScanLeaves(t, bs, inc + 1, inbits, q, out);
      } else if p != t.lastbit {
        qs := ScanLeavesPair(t, bs, inc, inbits, p, out);
      }
    }
  }

  /** The same when the pass falls off leaf p: p's two bytes come first. */
  lemma {:induction false} ScanLeavesPair(t: Tree, bs: seq<byte>, inc: nat, inbits: nat, p: nat, out: seq<byte>) returns (qs: seq<nat>)
    requires Linked(t) && p < t.lastbit && inc < inbits <= 8 * |bs| && |out| < BUFSIZE && |out| % 2 == 0
    requires Child(t.dec[p], BitAt(bs, inc)) == 0
    ensures Leaves(t, qs)
    ensures var r := Scan(t, bs, inc, inbits, p, out);
      r.out == out + Pairs(t, qs) + (if r.stop == Last then Odd(t) else [])
    decreases inbits - inc, 0
  {
    hide BitAt, Mask;
    var b := BitAt(bs, inc);
    var o := out + [t.dec[p].c0, t.dec[p].c1];
    if |o| == BUFSIZE {
      qs := [p];
      assert Pairs(t, qs) == [t.dec[p].c0, t.dec[p].c1] + Pairs(t, []);
    } else {
      var rest := ScanLeaves(t, bs, inc + 1, inbits, Child(t.dec[0], b), o);
      qs := [p] + rest;
      assert qs[1..] == rest;
      assert out + Pairs(t, qs) == o + Pairs(t, rest);
    }
    assert Leaf(t, p);
  }

  /** The block after fin.Read(@in, 0, BUFSIZE) returned bs. */
  function Fill(block: seq<byte>, bs: seq<byte>): seq<byte>
    requires |bs| <= |block|
  {
    bs + block[|bs|..]
  }

  /** What getbuf leaves: its result, the bytes it produced, the stream and the block state. */
  datatype Got = Got(o: int, out: seq<byte>, rd: nat, open: bool, block: seq<byte>, inc: nat, inbits: nat)

  predicate BufArgs(t: Tree, input: seq<byte>, rd: nat, block: seq<byte>, inc: nat, inbits: nat, p: nat, out: seq<byte>)
  {
    Linked(t) && p <= t.lastbit && rd <= |input| && |block| == BUFSIZE &&
    inc <= inbits <= 8 * BUFSIZE && |out| < BUFSIZE && |out| % 2 == 0
  }

  /**
   * getbuf from node p with out produced: a block is read when inc is 0
   * (an exception when the stream is closed), then walked; a block that
   * ends the stream without the last node is an error (-1), and reaching
   * the last node closes the stream (an exception when it is already
   * closed).
   */
  function GetBufSpec(t: Tree, input: seq<byte>, rd: nat, open: bool, block: seq<byte>, inc: nat, inbits: nat, p: nat, out: seq<byte>): (r: Res<Got>)
    requires BufArgs(t, input, rd, block, inc, inbits, p, out)
    ensures r.Ok? ==> |r.value.out| <= BUFSIZE
    decreases |input| - rd, if inc == 0 then 0 else 1
  {
    if inc == 0 && !open then Throws
    else
      var bs := if inc == 0 then Avail(input, rd, BUFSIZE) else [];
      var block' := Fill(block, bs);
      var inbits' := if inc == 0 then 8 * |bs| else inbits;
      var s := Scan(t, block', inc, inbits', p, out);
      if s.stop == Full then Ok(Got(|s.out|, s.out, rd + |bs|, open, block', s.inc, inbits'))
      else if s.stop == Last then
        if !open then Throws else Ok(Got(|s.out|, s.out, rd + |bs|, false, block', s.inc, inbits'))
      else if inbits' == 8 * BUFSIZE then GetBufSpec(t, input, rd + |bs|, open, block', 0, inbits', s.p, s.out)
      else Ok(Got(-1, s.out, rd + |bs|, open, block', 0, inbits'))
  }

  /** getbuf with no block left on a closed stream throws. */
  lemma GetBufClosed(t: Tree, input: seq<byte>, rd: nat, block: seq<byte>, inbits: nat, p: nat, out: seq<byte>)
    requires BufArgs(t, input, rd, block, 0, inbits, p, out)
    ensures GetBufSpec(t, input, rd, false, block, 0, inbits, p, out) == Throws
  {
  }

  /** What getbuf does once the bits of a block were scanned into s (the stream at rd, the block and its inbits already read). */
  function Round(t: Tree, input: seq<byte>, rd: nat, open: bool, block: seq<byte>, inbits: nat, s: Scanned): Res<Got>
    requires Linked(t) && s.p <= t.lastbit && rd <= |input| && |block| == BUFSIZE && inbits <= 8 * BUFSIZE
    requires s.stop == Ran ==> |s.out| < BUFSIZE && |s.out| % 2 == 0
  {
    if s.stop == Full then Ok(Got(|s.out|, s.out, rd, open, block, s.inc, inbits))
    else if s.stop == Last then
      if !open then Throws else Ok(Got(|s.out|, s.out, rd, false, block, s.inc, inbits))
    else if inbits == 8 * BUFSIZE then GetBufSpec(t, input, rd, open, block, 0, inbits, s.p, s.out)
    else Ok(Got(-1, s.out, rd, open, block, 0, inbits))
  }

  /** One round of getbuf: read a block bs when the bit position is 0, scan it, then Round. */
  lemma GetBufRound(t: Tree, input: seq<byte>, rd: nat, open: bool, block: seq<byte>, inc: nat, inbits: nat, p: nat, out: seq<byte>,
                    bs: seq<byte>, block': seq<byte>, inbits': nat)
    requires BufArgs(t, input, rd, block, inc, inbits, p, out) && !(inc == 0 && !open)
    requires bs == (if inc == 0 then Avail(input, rd, BUFSIZE) else []) && block' == Fill(block, bs)
    requires inbits' == if inc == 0 then 8 * |bs| else inbits
    ensures BufArgs(t, input, rd + |bs|, block', inc, inbits', p, out)
    ensures GetBufSpec(t, input, rd, open, block, inc, inbits, p, out) ==
      Round(t, input, rd + |bs|, open, block', inbits', Scan(t, block', inc, inbits', p, out))
  {
  }

  /**
   * The shape of a getbuf result: -1 or the number of bytes produced,
   * which extend out; fewer than a full buffer only when the stream was
   * open and is now closed; the block state stays in range.
   */
  ghost predicate Shaped(g: Res<Got>, input: seq<byte>, rd: nat, open: bool, out: seq<byte>)
  {
    g.Ok? ==>
      (g.value.o == -1 || g.value.o == |g.value.out|) && |out| <= |g.value.out| <= BUFSIZE &&
      g.value.out[..|out|] == out &&
      (0 <= g.value.o < BUFSIZE ==> open && !g.value.open) &&
      (g.value.o != BUFSIZE ==> g.value.inc == 0 || !g.value.open) &&
      rd <= g.value.rd <= |input| && |g.value.block| == BUFSIZE && g.value.inc <= g.value.inbits <= 8 * BUFSIZE
  }

  /** A result shaped after a longer prefix is shaped after a shorter one. */
  lemma ShapedPrefix(g: Res<Got>, input: seq<byte>, rd: nat, rd': nat, open: bool, out: seq<byte>, out': seq<byte>)
    requires Shaped(g, input, rd', open, out') && rd <= rd' && |out| <= |out'| && out'[..|out|] == out
    ensures Shaped(g, input, rd, open, out)
  {
    if g.Ok? {
      assert g.value.out[..|out|] == g.value.out[..|out'|][..|out|];
    }
  }

  /** getbuf returns -1, a full buffer, or fewer bytes only at the end of the data, where it closes the stream. */
  lemma {:induction false} GetBufShape(t: Tree, input: seq<byte>, rd: nat, open: bool, block: seq<byte>, inc: nat, inbits: nat, p: nat, out: seq<byte>)
    requires BufArgs(t, input, rd, block, inc, inbits, p, out)
    ensures Shaped(GetBufSpec(t, input, rd, open, block, inc, inbits, p, out), input, rd, open, out)
    decreases |input| - rd, if inc == 0 then 0 else 1, 2
  {
    if !(inc == 0 && !open) {
      var bs := if inc == 0 then Avail(input, rd, BUFSIZE) else [];
      var block' := Fill(block, bs);
      var inbits' := if inc == 0 then 8 * |bs| else inbits;
      GetBufRound(t, input, rd, open, block, inc, inbits, p, out, bs, block', inbits');
      RoundShape(t, input, rd + |bs|, rd, open, block', inc, inbits', p, out, Scan(t, block', inc, inbits', p, out));
    }
  }

  /** The same for one round, the stream having been at rd0. */
  lemma {:induction false} RoundShape(t: Tree, input: seq<byte>, rd: nat, rd0: nat, open: bool, block: seq<byte>, inc: nat, inbits: nat, p: nat, out: seq<byte>, s: Scanned)
    requires BufArgs(t, input, rd, block, inc, inbits, p, out) && s == Scan(t, block, inc, inbits, p, out) && rd0 <= rd
    ensures Shaped(Round(t, input, rd, open, block, inbits, s), input, rd0, open, out)
    decreases |input| - rd, 0, if inbits == 8 * BUFSIZE then 3 else 0
  {
    if s.stop == Ran && inbits == 8 * BUFSIZE {
      GetBufShape(t, input, rd, open, block, 0, inbits, s.p, s.out);
      ShapedPrefix(GetBufSpec(t, input, rd, open, block, 0, inbits, s.p, s.out), input, rd0, rd, open, out, s.out);
    }
  }

  /** The UTF-8 byte order mark. */
  predicate Bom(s: seq<byte>)
  {
    |s| >= 3 && s[0] == 0xEF && s[1] == 0xBB && s[2] == 0xBF
  }

  /** The line ReadLine hands out: on the first line without a byte order mark, then without "\n" or "\r\n". */
  function Stripped(s: seq<byte>, first: bool): (r: seq<byte>)
  {
    var i := if first && Bom(s) then 3 else 0;
    var n := |s| - i;
    var n1 := if n > 0 && s[|s| - 1] == 10 then (if n - 1 > 0 && s[|s| - 2] == 13 then n - 2 else n - 1) else n;
    s[i..i + n1]
  }

  /** The stripped line is the part from i on, n bytes long, that ReadLine's trimming computes. */
  lemma StrippedAt(s: seq<byte>, first: bool, i: nat, n: nat)
    requires i == (if first && Bom(s) then 3 else 0) && i <= |s|
    requires var m := |s| - i; n == if m > 0 && s[|s| - 1] == 10 then (if m - 1 > 0 && s[|s| - 2] == 13 then m - 2 else m - 1) else m
    ensures i + n <= |s| && Stripped(s, first) == s[i..i + n]
  {
  }

  /** A line ending in "\r\n" loses both. */
  lemma StripCrLf(u: seq<byte>)
    ensures Stripped(u + [13, 10], false) == u
  {
  }

  /** A line ending in "\n" alone loses it. */
  lemma StripLf(u: seq<byte>)
    requires u == [] || u[|u| - 1] != 13
    ensures Stripped(u + [10], false) == u
  {
  }

  /** A line without a final "\n" is handed out whole after the first line. */
  lemma StripNone(u: seq<byte>)
    requires u == [] || u[|u| - 1] != 10
    ensures Stripped(u, false) == u
  {
  }

  /** On the first line the byte order mark goes, and the rest is trimmed like any other line. */
  lemma {:induction false} StripBom(u: seq<byte>)
    ensures Stripped([0xEF, 0xBB, 0xBF] + u, true) == Stripped(u, false)
  {
    var s := [0xEF, 0xBB, 0xBF] + u;
    assert Bom(s);
    assert s[3..] == u;
    if |u| > 0 {
      assert s[|s| - 1] == u[|u| - 1];
    }
    if |u| > 1 {
      assert s[|s| - 2] == u[|u| - 2];
    }
  }
}
