/**
 * The replacement table (RepList.cs): REP and ICONV/OCONV pairs kept in a
 * list sorted by ordinal pattern, found by a prefix binary search and
 * applied left to right by `conv`.
 *
 * An entry's four outstrings are indexed by context type: 0 inside a
 * word, 1 at its start, 2 at its end, 3 for the whole word. A `null`
 * outstring is written "" here: every reader tests `IsNullOrEmpty`, and
 * `add` never stores an empty one.
 */
module RepLists {
  import opened Base
  import opened Ordinal

  datatype RepEntry = RepEntry(pattern: string, outstrings: seq<string>)

  /** Every entry has its four context slots. */
  predicate Shaped(dat: seq<RepEntry>)
  {
    forall i :: 0 <= i < |dat| ==> |dat[i].outstrings| == 4
  }

  /** Strictly before in ordinal order. */
  predicate Less(a: string, b: string)
  {
    LexLe(a, b) && a != b
  }

  /** Sorted by ordinal pattern, no pattern twice. */
  predicate Sorted(dat: seq<RepEntry>)
  {
    forall i, j :: 0 <= i < j < |dat| ==> Less(dat[i].pattern, dat[j].pattern)
  }

  /** The invariant `add` keeps. */
  predicate Table(dat: seq<RepEntry>)
  {
    Shaped(dat) && Sorted(dat)
  }

  // ---------------------------------------------------------------------
  // find
  // ---------------------------------------------------------------------

  /**
   * `string.Compare(word, atstart, p, 0, p.Length, Ordinal)` with v the
   * text from atstart: the first |p| characters of v (fewer when v is
   * shorter) ordinally against p, as -1, 0 or 1.
   */
  function CompareAt(v: string, p: string): (c: int)
    ensures -1 <= c <= 1
  {
    if p == [] then 0
    else if v == [] then -1
    else if v[0] < p[0] then -1
    else if v[0] > p[0] then 1
    else CompareAt(v[1..], p[1..])
  }

  lemma {:induction false} CompareAtZero(v: string, p: string)
    ensures CompareAt(v, p) == 0 <==> IsPrefix(p, v)
  {
    if p != [] && v != [] {
      CompareAtZero(v[1..], p[1..]);
      if IsPrefix(p, v) {
        assert v[1..][..|p| - 1] == v[..|p|][1..];
      }
      if IsPrefix(p[1..], v[1..]) && v[0] == p[0] {
        assert v[..|p|] == [v[0]] + v[1..][..|p| - 1];
      }
    }
  }

  /** Patterns that compare below the text stay below it further up the order. */
  lemma {:induction false} CompareAtUpward(v: string, p: string, q: string)
    requires LexLe(p, q) && CompareAt(v, p) < 0
    ensures CompareAt(v, q) < 0
  {
    if v != [] && v[0] == p[0] && p[0] == q[0] {
      CompareAtUpward(v[1..], p[1..], q[1..]);
    }
  }

  /** A text compares below every pattern ordinally after it. */
  lemma {:induction false} CompareAtPast(p: string, q: string)
    requires Less(p, q)
    ensures CompareAt(p, q) < 0
  {
    if p != [] && p[0] == q[0] {
      assert p[1..] != q[1..] by {
        assert p == [p[0]] + p[1..] && q == [q[0]] + q[1..];
      }
      CompareAtPast(p[1..], q[1..]);
    }
  }

  /** A matching pattern's successors that do not extend it compare below the text. */
  lemma {:induction false} CompareAtBeside(v: string, p: string, q: string)
    requires IsPrefix(p, v) && LexLe(p, q) && !IsPrefix(p, q)
    ensures CompareAt(v, q) < 0
  {
    assert p != [];
    assert v[0] == v[..|p|][0] == p[0];
    if p[0] == q[0] {
      assert v[1..][..|p| - 1] == v[..|p|][1..];
      CompareAtBeside(v[1..], p[1..], q[1..]);
    }
  }

  /** The midpoint `(p1 + p2) >> 1` of a non-empty window. */
  function Mid(p1: nat, p2: int): (m: int)
    requires p1 <= p2
    ensures p1 <= m <= p2
  {
    (p1 + p2) / 2
  }

  /** The loop of `find` from the window [p1, p2] with the last match so far. */
  function FindFrom(dat: seq<RepEntry>, v: string, p1: nat, p2: int, ret: int): (r: int)
    requires p2 < |dat| && -1 <= ret < |dat|
    requires ret >= 0 ==> CompareAt(v, dat[ret].pattern) == 0
    ensures -1 <= r < |dat|
    ensures r >= 0 ==> CompareAt(v, dat[r].pattern) == 0
    decreases p2 - p1
  {
    if p1 > p2 then ret
    else
      var m := Mid(p1, p2);
      var c := CompareAt(v, dat[m].pattern);
      if c < 0 then FindFrom(dat, v, p1, m - 1, ret)
      else if c > 0 then FindFrom(dat, v, m + 1, p2, ret)
      else FindFrom(dat, v, m + 1, p2, m)
  }

  /**
   * find(word, atstart) with v = word[atstart..]: the binary search for a
   * pattern v starts with. A result other than -1 is such a pattern.
   */
  function FindIn(dat: seq<RepEntry>, v: string): (r: int)
    ensures -1 <= r < |dat|
    ensures r >= 0 ==> IsPrefix(dat[r].pattern, v)
  {
    var r := FindFrom(dat, v, 0, |dat| - 1, -1);
    if r >= 0 then CompareAtZero(v, dat[r].pattern); r else r
  }

  /** In a sorted table a pattern comparing below the text has only such patterns after it. */
  lemma SortedUpward(dat: seq<RepEntry>, v: string, i: int, j: int)
    requires Sorted(dat) && 0 <= i <= j < |dat| && CompareAt(v, dat[i].pattern) < 0
    ensures CompareAt(v, dat[j].pattern) < 0
  {
    if i < j {
      CompareAtUpward(v, dat[i].pattern, dat[j].pattern);
    }
  }

  /** Entry k matches v, and exactly the entries after k compare below v. */
  predicate SplitAt(dat: seq<RepEntry>, v: string, k: nat)
  {
    && k < |dat| && CompareAt(v, dat[k].pattern) == 0
    && forall j :: 0 <= j < |dat| ==> (CompareAt(v, dat[j].pattern) < 0 <==> k < j)
  }

  lemma {:induction false} FindFromLast(dat: seq<RepEntry>, v: string, p1: nat, p2: int, ret: int, k: nat)
    requires SplitAt(dat, v, k) && p2 < |dat| && -1 <= ret < |dat|
    requires ret >= 0 ==> CompareAt(v, dat[ret].pattern) == 0
    requires p1 <= p2 + 1 && (p1 <= k <= p2 || (k + 1 == p1 && ret == k))
    ensures FindFrom(dat, v, p1, p2, ret) == k
    decreases p2 - p1
  {
    hide CompareAt;
    if p1 <= p2 {
      var m := Mid(p1, p2);
      var c := CompareAt(v, dat[m].pattern);
      assert c < 0 <==> k < m;
      if c < 0 {
        FindFromLast(dat, v, p1, m - 1, ret, k);
      } else if c > 0 {
        FindFromLast(dat, v, m + 1, p2, ret, k);
      } else {
        FindFromLast(dat, v, m + 1, p2, m, k);
      }
    }
  }

  /**
   * When the last pattern not ordinally after the text is a match, find
   * returns it: it is then the longest match, as the search's "scan in the
   * right half for a longer match" intends.
   */
  lemma FindLast(dat: seq<RepEntry>, v: string, k: nat)
    requires Sorted(dat) && k < |dat| && IsPrefix(dat[k].pattern, v)
    requires k + 1 == |dat| || CompareAt(v, dat[k + 1].pattern) < 0
    ensures FindIn(dat, v) == k
  {
    CompareAtZero(v, dat[k].pattern);
    forall j | 0 <= j < |dat|
      ensures CompareAt(v, dat[j].pattern) < 0 <==> k < j
    {
      if k < j {
        SortedUpward(dat, v, k + 1, j);
      } else if CompareAt(v, dat[j].pattern) < 0 {
        SortedUpward(dat, v, j, k);
      }
    }
    FindFromLast(dat, v, 0, |dat| - 1, -1, k);
  }

  /** An exact pattern is always found (what keeps `add` free of duplicates). */
  lemma FindExact(dat: seq<RepEntry>, k: nat)
    requires Sorted(dat) && k < |dat|
    ensures FindIn(dat, dat[k].pattern) == k
  {
    var p := dat[k].pattern;
    if k + 1 < |dat| {
      CompareAtPast(p, dat[k + 1].pattern);
    }
    FindLast(dat, p, k);
  }

  /** No pattern of the table is a proper prefix of another. */
  predicate PrefixFree(dat: seq<RepEntry>)
  {
    forall i, j :: 0 <= i < j < |dat| ==> !IsPrefix(dat[i].pattern, dat[j].pattern)
  }

  /** In a prefix-free table find misses no match. */
  lemma FindPrefixFree(dat: seq<RepEntry>, v: string, k: nat)
    requires Sorted(dat) && PrefixFree(dat) && k < |dat| && IsPrefix(dat[k].pattern, v)
    ensures FindIn(dat, v) == k
  {
    if k + 1 < |dat| {
      CompareAtBeside(v, dat[k].pattern, dat[k + 1].pattern);
    }
    FindLast(dat, v, k);
  }

  /**
   * In general find can miss: with the patterns "a", "abb", "abd" the
   * search for "abc" halves past "a" and returns -1 although "a" matches.
   */
  lemma FindCanMiss()
    ensures var dat := [RepEntry(['a'], ["", "", "", ""]), RepEntry(['a', 'b', 'b'], ["", "", "", ""]),
                        RepEntry(['a', 'b', 'd'], ["", "", "", ""])];
            Sorted(dat) && IsPrefix(dat[0].pattern, ['a', 'b', 'c']) && FindIn(dat, ['a', 'b', 'c']) == -1
  {
    var abb, abc, abd := ['a', 'b', 'b'], ['a', 'b', 'c'], ['a', 'b', 'd'];
    var dat := [RepEntry(['a'], ["", "", "", ""]), RepEntry(abb, ["", "", "", ""]), RepEntry(abd, ["", "", "", ""])];
    assert CompareAt(abc[2..], abb[2..]) == 1;
    assert CompareAt(abc[1..], abb[1..]) == 1;
    assert CompareAt(abc, abb) == 1;
    assert CompareAt(abc[2..], abd[2..]) == -1;
    assert CompareAt(abc[1..], abd[1..]) == -1;
    assert CompareAt(abc, abd) == -1;
    assert FindFrom(dat, abc, 2, 2, -1) == -1;
    assert LexLe(abb[1..], abd[1..]);
    assert LexLe(['a'], abb) && LexLe(['a'], abd) && LexLe(abb, abd);
    assert abc[..1] == ['a'];
  }

  // ---------------------------------------------------------------------
  // replace
  // ---------------------------------------------------------------------

  /** The context type asked for: ending the word adds 2, starting it adds 1. */
  function Requested(wordlen: int, patlen: nat, atstart: bool): (t: nat)
    ensures t < 4
    ensures t >= 2 <==> wordlen == patlen
    ensures t % 2 == 1 <==> atstart
  {
    if wordlen == patlen then (if atstart then 3 else 2) else (if atstart then 1 else 0)
  }

  /** The fallback step of `replace`. */
  function Fallback(t: nat, atstart: bool): nat
  {
    if t == 2 && !atstart then 0 else if t == 0 then 0 else t - 1
  }

  /**
   * The order in which the contexts are tried: the whole word falls back
   * to the end, the start and the middle; the start to the middle; the end
   * (not at the start) straight to the middle.
   */
  function Chain(t: nat, atstart: bool): (ch: seq<nat>)
    requires t < 4
    ensures |ch| > 0 && ch[0] == t && ch[|ch| - 1] == 0
    ensures forall i :: 0 <= i < |ch| ==> ch[i] < 4
    ensures forall i :: 0 <= i < |ch| - 1 ==> ch[i] != 0 && ch[i + 1] == Fallback(ch[i], atstart)
  {
    if t == 3 then (if atstart then [3, 2, 1, 0] else [3, 2, 0])
    else if t == 2 then (if atstart then [2, 1, 0] else [2, 0])
    else if t == 1 then [1, 0]
    else [0]
  }

  /** The first non-empty outstring along the chain, else the one of its last context. */
  function Chosen(os: seq<string>, ch: seq<nat>): string
    requires |ch| > 0 && forall i :: 0 <= i < |ch| ==> ch[i] < |os|
  {
    if |ch| == 1 || os[ch[0]] != [] then os[ch[0]]
    else Chosen(os, ch[1..])
  }

  /**
   * The chosen outstring belongs to a context of the chain; every context
   * tried before it is empty, and it is empty only when all of them are.
   */
  lemma {:induction false} ChosenFirst(os: seq<string>, ch: seq<nat>)
    requires |ch| > 0 && forall i :: 0 <= i < |ch| ==> ch[i] < |os|
    ensures exists i :: 0 <= i < |ch| && Chosen(os, ch) == os[ch[i]] && (os[ch[i]] != [] || i == |ch| - 1)
                && forall j :: 0 <= j < i ==> os[ch[j]] == []
  {
    if |ch| > 1 && os[ch[0]] == [] {
      ChosenFirst(os, ch[1..]);
      var i :| 0 <= i < |ch| - 1 && Chosen(os, ch[1..]) == os[ch[1..][i]] && (os[ch[1..][i]] != [] || i == |ch| - 2)
                && forall j :: 0 <= j < i ==> os[ch[1..][j]] == [];
      assert forall j :: 0 <= j < i + 1 ==> os[ch[j]] == [] by {
        forall j | 0 <= j < i + 1 ensures os[ch[j]] == [] {
          if j > 0 {
            assert ch[1..][j - 1] == ch[j];
          }
        }
      }
      assert ch[1..][i] == ch[i + 1];
    } else {
      assert Chosen(os, ch) == os[ch[0]];
    }
  }

  /** replace(wordlen, ind, atstart) on entry e. */
  function ReplaceOut(e: RepEntry, wordlen: int, atstart: bool): string
    requires |e.outstrings| == 4
  {
    Chosen(e.outstrings, Chain(Requested(wordlen, |e.pattern|, atstart), atstart))
  }

  /** The whole word read at the start tries the whole-word, end, start and middle contexts in turn. */
  lemma ReplaceWholeWord(e: RepEntry, wordlen: int)
    requires |e.outstrings| == 4 && wordlen == |e.pattern|
    ensures var os := e.outstrings;
            ReplaceOut(e, wordlen, true) == if os[3] != [] then os[3] else if os[2] != [] then os[2]
                                            else if os[1] != [] then os[1] else os[0]
  {
    var os := e.outstrings;
    var ch := Chain(3, true);
    assert ch[1..] == [2, 1, 0] && ch[1..][1..] == [1, 0] && ch[1..][1..][1..] == [0];
    assert Chosen(os, [1, 0]) == if os[1] != [] then os[1] else os[0] by {
      assert Chosen(os, [0]) == os[0];
    }
    assert Chosen(os, [2, 1, 0]) == if os[2] != [] then os[2] else Chosen(os, [1, 0]);
  }

  // ---------------------------------------------------------------------
  // add
  // ---------------------------------------------------------------------

  /** `Replace("_", " ")`. */
  function Spaced(s: string): (r: string)
    ensures |r| == |s| && '_' !in r
    ensures forall i :: 0 <= i < |s| ==> r[i] == (if s[i] == '_' then ' ' else s[i])
  {
    seq(|s|, i requires 0 <= i < |s| => if s[i] == '_' then ' ' else s[i])
  }

  /**
   * The word context of a REP pattern: a leading `_` asks for the word
   * start (type bit 1), a trailing one, after that, for the word end
   * (bit 2); the remaining underscores stand for spaces.
   */
  function Context(pat1: string): (r: (nat, string))
    requires pat1 != []
    ensures r.0 < 4 && '_' !in r.1
    ensures r.0 % 2 == 1 <==> pat1[0] == '_'
    ensures var s := if pat1[0] == '_' then pat1[1..] else pat1;
            (r.0 >= 2 <==> s != [] && s[|s| - 1] == '_')
            && |r.1| == |s| - (if r.0 >= 2 then 1 else 0)
            && forall i :: 0 <= i < |r.1| ==> r.1[i] == (if s[i] == '_' then ' ' else s[i])
  {
    var lead := pat1[0] == '_';
    var s1 := if lead then pat1[1..] else pat1;
    var trail := s1 != [] && s1[|s1| - 1] == '_';
    var s2 := if trail then s1[..|s1| - 1] else s1;
    ((if lead then 1 else 0) + (if trail then 2 else 0), Spaced(s2))
  }

  /** A new entry, its outstring in slot t. */
  function Fresh(pattern: string, o: string, t: nat): (e: RepEntry)
    requires t < 4
    ensures |e.outstrings| == 4 && e.outstrings[t] == o
    ensures forall j :: 0 <= j < 4 && j != t ==> e.outstrings[j] == []
  {
    RepEntry(pattern, ["", "", "", ""][t := o])
  }

  /**
   * The insertion step of `add`: the new entry is appended and moved down
   * past every entry whose pattern is ordinally after it.
   */
  function Inserted(dat: seq<RepEntry>, e: RepEntry): (r: seq<RepEntry>)
    ensures |r| == |dat| + 1
  {
    if dat != [] && Less(e.pattern, dat[|dat| - 1].pattern) then Inserted(dat[..|dat| - 1], e) + [dat[|dat| - 1]]
    else dat + [e]
  }

  datatype Added = Added(code: int, dat: seq<RepEntry>)

  /** add(pat1, pat2) as a value: the result code and the new table. */
  function AfterAdd(dat: seq<RepEntry>, pat1: string, pat2: string): Added
    requires Shaped(dat)
  {
    if |pat1| == 0 || |pat2| == 0 then Added(1, dat)
    else
      var (t, p) := Context(pat1);
      var o := Spaced(pat2);
      var m := FindIn(dat, p);
      if m >= 0 && dat[m].pattern == p then Added(0, dat[m := dat[m].(outstrings := dat[m].outstrings[t := o])])
      else Added(0, Inserted(dat, Fresh(p, o, t)))
  }

  /** Where `add` inserts e: after every entry its pattern is not ordinally before. */
  function InsertPos(dat: seq<RepEntry>, e: RepEntry): (q: nat)
    ensures q <= |dat|
  {
    if dat != [] && Less(e.pattern, dat[|dat| - 1].pattern) then InsertPos(dat[..|dat| - 1], e) else |dat|
  }

  lemma {:induction false} InsertedSplit(dat: seq<RepEntry>, e: RepEntry)
    ensures var q := InsertPos(dat, e); Inserted(dat, e) == dat[..q] + [e] + dat[q..]
  {
    var n := |dat|;
    if dat != [] && Less(e.pattern, dat[n - 1].pattern) {
      var d := dat[..n - 1];
      var q := InsertPos(d, e);
      InsertedSplit(d, e);
      assert dat[..q] == d[..q];
      assert dat[q..] == d[q..] + [dat[n - 1]];
    } else {
      assert dat[..n] == dat && dat[n..] == [];
    }
  }

  /** Every entry after the insertion point has a pattern ordinally after e's. */
  lemma {:induction false} InsertPosAfter(dat: seq<RepEntry>, e: RepEntry)
    ensures forall i :: InsertPos(dat, e) <= i < |dat| ==> Less(e.pattern, dat[i].pattern)
  {
    var n := |dat|;
    if dat != [] && Less(e.pattern, dat[n - 1].pattern) {
      var d := dat[..n - 1];
      InsertPosAfter(d, e);
      assert forall i :: 0 <= i < n - 1 ==> d[i] == dat[i];
    }
  }

  lemma LessTrans(a: string, b: string, c: string)
    requires Less(a, b) && LexLe(b, c)
    ensures Less(a, c)
  {
    LexLeTrans(a, b, c);
    if a == c {
      LexLeAntisym(a, b);
    }
  }

  /** In a sorted table without e's pattern, every entry before the insertion point is ordinally before e. */
  lemma {:induction false} InsertPosBefore(dat: seq<RepEntry>, e: RepEntry)
    requires Sorted(dat) && forall i :: 0 <= i < |dat| ==> dat[i].pattern != e.pattern
    ensures forall i :: 0 <= i < InsertPos(dat, e) ==> Less(dat[i].pattern, e.pattern)
  {
    var n := |dat|;
    if dat != [] && Less(e.pattern, dat[n - 1].pattern) {
      var d := dat[..n - 1];
      assert forall i :: 0 <= i < n - 1 ==> d[i] == dat[i];
      InsertPosBefore(d, e);
    } else if dat != [] {
      LexLeTotal(e.pattern, dat[n - 1].pattern);
      forall i | 0 <= i < n ensures Less(dat[i].pattern, e.pattern) {
        if i < n - 1 {
          LessTrans(dat[i].pattern, dat[n - 1].pattern, e.pattern);
        }
      }
    }
  }

  /** An entry placed between the patterns ordinally before and after it keeps the table sorted. */
  lemma SortedInsertAt(dat: seq<RepEntry>, e: RepEntry, q: nat)
    requires Sorted(dat) && q <= |dat|
    requires forall i :: 0 <= i < q ==> Less(dat[i].pattern, e.pattern)
    requires forall i :: q <= i < |dat| ==> Less(e.pattern, dat[i].pattern)
    ensures Sorted(dat[..q] + [e] + dat[q..])
  {
    var r := dat[..q] + [e] + dat[q..];
    forall i, j | 0 <= i < j < |r| ensures Less(r[i].pattern, r[j].pattern) {
      if j < q {
        assert r[i] == dat[i] && r[j] == dat[j];
      } else if i > q {
        assert r[i] == dat[i - 1] && r[j] == dat[j - 1];
      } else if i == q {
        assert r[i] == e && r[j] == dat[j - 1];
      } else if j == q {
        assert r[i] == dat[i] && r[j] == e;
      } else {
        assert r[i] == dat[i] && r[j] == dat[j - 1];
        LessTrans(dat[i].pattern, e.pattern, dat[j - 1].pattern);
      }
    }
  }

  lemma ShapedInsertAt(dat: seq<RepEntry>, e: RepEntry, q: nat)
    requires Shaped(dat) && |e.outstrings| == 4 && q <= |dat|
    ensures Shaped(dat[..q] + [e] + dat[q..])
  {
    var r := dat[..q] + [e] + dat[q..];
    forall i | 0 <= i < |r| ensures |r[i].outstrings| == 4 {
      if i < q {
        assert r[i] == dat[i];
      } else if i > q {
        assert r[i] == dat[i - 1];
      }
    }
  }

  /** Inserting a new pattern keeps the table sorted and shaped, and adds just that entry. */
  lemma InsertedTable(dat: seq<RepEntry>, e: RepEntry)
    requires Table(dat) && |e.outstrings| == 4
    requires forall i :: 0 <= i < |dat| ==> dat[i].pattern != e.pattern
    ensures Table(Inserted(dat, e))
    ensures multiset(Inserted(dat, e)) == multiset(dat) + multiset{e}
  {
    var q := InsertPos(dat, e);
    InsertedSplit(dat, e);
    InsertPosBefore(dat, e);
    InsertPosAfter(dat, e);
    SortedInsertAt(dat, e, q);
    ShapedInsertAt(dat, e, q);
    assert dat == dat[..q] + dat[q..];
  }

  /** `add` keeps the table sorted by ordinal pattern, no pattern twice. */
  lemma AddKeepsTable(dat: seq<RepEntry>, pat1: string, pat2: string)
    requires Table(dat)
    ensures Table(AfterAdd(dat, pat1, pat2).dat)
  {
    if |pat1| > 0 && |pat2| > 0 {
      var (t, p) := Context(pat1);
      var m := FindIn(dat, p);
      if !(m >= 0 && dat[m].pattern == p) {
        forall i | 0 <= i < |dat| ensures dat[i].pattern != p {
          if dat[i].pattern == p {
            FindExact(dat, i);
          }
        }
        InsertedTable(dat, Fresh(p, Spaced(pat2), t));
      } else {
        var r := AfterAdd(dat, pat1, pat2).dat;
        assert forall i :: 0 <= i < |dat| ==> r[i].pattern == dat[i].pattern;
      }
    }
  }

  /**
   * `add` of a pattern already in the table only replaces that entry's
   * outstring for the context; no entry is added.
   */
  lemma AddExisting(dat: seq<RepEntry>, pat1: string, pat2: string, k: nat)
    requires Table(dat) && pat1 != [] && pat2 != [] && k < |dat| && dat[k].pattern == Context(pat1).1
    ensures var r := AfterAdd(dat, pat1, pat2);
            r.code == 0 && |r.dat| == |dat|
            && r.dat[k] == RepEntry(dat[k].pattern, dat[k].outstrings[Context(pat1).0 := Spaced(pat2)])
            && forall j :: 0 <= j < |dat| && j != k ==> r.dat[j] == dat[j]
  {
    FindExact(dat, k);
  }

  /**
   * `add` of a new pattern inserts one entry holding the outstring in the
   * slot of its context, at its ordinal place.
   */
  lemma AddNew(dat: seq<RepEntry>, pat1: string, pat2: string)
    requires Table(dat) && pat1 != [] && pat2 != []
    requires forall i :: 0 <= i < |dat| ==> dat[i].pattern != Context(pat1).1
    ensures var r := AfterAdd(dat, pat1, pat2);
            var e := Fresh(Context(pat1).1, Spaced(pat2), Context(pat1).0);
            r.code == 0 && r.dat == Inserted(dat, e) && multiset(r.dat) == multiset(dat) + multiset{e}
  {
    InsertedTable(dat, Fresh(Context(pat1).1, Spaced(pat2), Context(pat1).0));
  }

  // ---------------------------------------------------------------------
  // conv and check_against_breaktable
  // ---------------------------------------------------------------------

  /** How far conv moves past a replaced pattern (an empty one replaces one character). */
  function Advance(p: string): (n: nat)
    ensures n >= 1 && n >= |p|
  {
    if |p| != 0 then |p| else 1
  }

  /**
   * The replacement conv applies at position i of word, if any: the
   * pattern find returns there and the outstring replace chooses for it.
   */
  predicate Applies(dat: seq<RepEntry>, word: string, i: nat)
    requires Shaped(dat) && i < |word|
  {
    var n := FindIn(dat, word[i..]);
    n >= 0 && ReplaceOut(dat[n], |word| - i, i == 0) != []
  }

  /**
   * conv from position i: where a replacement applies its outstring stands
   * in for the pattern (non-overlapping, left to right); other characters
   * are copied.
   */
  function Converted(dat: seq<RepEntry>, word: string, i: nat): (r: string)
    requires Shaped(dat) && i <= |word|
    decreases |word| - i
  {
    if i == |word| then []
    else if !Applies(dat, word, i) then [word[i]] + Converted(dat, word, i + 1)
    else
      var n := FindIn(dat, word[i..]);
      var adv := Advance(dat[n].pattern);
      assert i + adv <= |word|;
      ReplaceOut(dat[n], |word| - i, i == 0) + Converted(dat, word, i + adv)
  }

  /** One step of conv at position i. */
  lemma ConvertedStep(dat: seq<RepEntry>, word: string, i: nat)
    requires Shaped(dat) && i < |word|
    ensures var n := FindIn(dat, word[i..]);
            Converted(dat, word, i)
              == if n < 0 || ReplaceOut(dat[n], |word| - i, i == 0) == [] then [word[i]] + Converted(dat, word, i + 1)
                 else ReplaceOut(dat[n], |word| - i, i == 0) + Converted(dat, word, i + Advance(dat[n].pattern))
  {
  }

  /** The loop of conv copying a character: it joins the pending unchanged text. */
  lemma ConvertedCopy(dat: seq<RepEntry>, word: string, dest: string, i0: nat, i: nat)
    requires Shaped(dat) && i0 <= i < |word| && !Applies(dat, word, i)
    ensures dest + word[i0..i] + Converted(dat, word, i) == dest + word[i0..i + 1] + Converted(dat, word, i + 1)
  {
    var rest := Converted(dat, word, i + 1);
    ConvertedStep(dat, word, i);
    assert Converted(dat, word, i) == [word[i]] + rest;
    assert word[i0..i + 1] == word[i0..i] + [word[i]];
  }

  /** The loop of conv replacing a pattern: the pending text and the outstring are emitted. */
  lemma ConvertedReplace(dat: seq<RepEntry>, word: string, dest: string, i0: nat, i: nat)
    requires Shaped(dat) && i0 <= i < |word| && Applies(dat, word, i)
    ensures var n := FindIn(dat, word[i..]);
            var j := i + Advance(dat[n].pattern);
            j <= |word|
            && dest + word[i0..i] + Converted(dat, word, i)
               == (dest + word[i0..i] + ReplaceOut(dat[n], |word| - i, i == 0)) + word[j..j] + Converted(dat, word, j)
  {
    var n := FindIn(dat, word[i..]);
    var j := i + Advance(dat[n].pattern);
    var pre := dest + word[i0..i];
    var l := ReplaceOut(dat[n], |word| - i, i == 0);
    var rest := Converted(dat, word, j);
    ConvertedStep(dat, word, i);
    assert Converted(dat, word, i) == l + rest;
    assert pre + (l + rest) == (pre + l) + rest;
    assert word[j..j] == [];
    assert (pre + l) + [] == pre + l;
  }

  /** A step of conv's loop from (dest, i0, i) to (dest', i0', i') keeps what is left to emit. */
  predicate Advanced(dat: seq<RepEntry>, word: string, dest: string, i0: nat, i: nat, dest': string, i0': nat, i': nat)
    requires Shaped(dat) && i0 <= i <= |word| && i0' <= i' <= |word|
  {
    dest + word[i0..i] + Converted(dat, word, i) == dest' + word[i0'..i'] + Converted(dat, word, i')
  }

  /** conv's loop at position i, given what find and replace return there. */
  lemma ConvertedAt(dat: seq<RepEntry>, word: string, dest: string, i0: nat, i: nat, n: int, l: string)
    requires Shaped(dat) && i0 <= i < |word| && n == FindIn(dat, word[i..])
    requires l == if n < 0 then [] else ReplaceOut(dat[n], |word| - i, i == 0)
    ensures l == [] ==> Advanced(dat, word, dest, i0, i, dest, i0, i + 1)
    ensures l != [] ==> (n >= 0 && i + Advance(dat[n].pattern) <= |word|
              && Advanced(dat, word, dest, i0, i, dest + word[i0..i] + l,
                          i + Advance(dat[n].pattern), i + Advance(dat[n].pattern)))
  {
    if l == [] {
      ConvertedCopy(dat, word, dest, i0, i);
    } else {
      ConvertedReplace(dat, word, dest, i0, i);
    }
  }

  /** With no replacement applying anywhere, conv returns the word itself. */
  lemma {:induction false} ConvertedUnchanged(dat: seq<RepEntry>, word: string, i: nat)
    requires Shaped(dat) && i <= |word|
    requires forall j :: i <= j < |word| ==> !Applies(dat, word, j)
    ensures Converted(dat, word, i) == word[i..]
    decreases |word| - i
  {
    if i < |word| {
      ConvertedUnchanged(dat, word, i + 1);
      assert word[i..] == [word[i]] + word[i + 1..];
    }
  }

  /** A replacement is applied where it applies, and the text after it is converted in turn. */
  lemma ConvertedApplies(dat: seq<RepEntry>, word: string, i: nat)
    requires Shaped(dat) && i < |word| && Applies(dat, word, i)
    ensures var n := FindIn(dat, word[i..]);
            OccursAt(dat[n].pattern, word, i)
            && Converted(dat, word, i) == ReplaceOut(dat[n], |word| - i, i == 0)
                                            + Converted(dat, word, i + Advance(dat[n].pattern))
  {
    var n := FindIn(dat, word[i..]);
    assert word[i..][..|dat[n].pattern|] == word[i..i + |dat[n].pattern|];
  }

  /** `str` occurs somewhere in `s` (the empty string occurs in every string). */
  predicate Contains(s: string, str: string)
  {
    exists i :: 0 <= i <= |s| && OccursAt(str, s, i)
  }

  /** Some non-empty outstring contains a break pattern. */
  predicate Clashes(dat: seq<RepEntry>, breaktable: seq<string>)
  {
    exists i, j, k :: 0 <= i < |dat| && 0 <= j < |dat[i].outstrings| && 0 <= k < |breaktable|
      && dat[i].outstrings[j] != [] && Contains(dat[i].outstrings[j], breaktable[k])
  }

  /**
   * The insertion loop of `add`: the entry is appended, then larger
   * entries are shifted up one place until its slot is reached.
   */
  method Insert(d0: seq<RepEntry>, e: RepEntry) returns (d: seq<RepEntry>)
    ensures d == Inserted(d0, e)
  {
    d := d0 + [e];
    var i := |d| - 1;
    while i > 0 && Less(e.pattern, d[i - 1].pattern)
      invariant 0 <= i < |d| && |d| == |d0| + 1
      invariant d[..i] == d0[..i] && d[i + 1..] == d0[i..]
      invariant Inserted(d0, e) == Inserted(d0[..i], e) + d0[i..]
      decreases i
    {
      assert d[i - 1] == d0[i - 1];
      InsertedShift(d0, e, i);
      d := d[i := d[i - 1]];
      i := i - 1;
    }
    InsertedStop(d0, e, i);
    d := d[i := e];
    assert d == d0[..i] + [e] + d0[i..];
  }

  /** The entry goes below a larger last entry: that entry joins the part shifted up. */
  lemma InsertedShift(d0: seq<RepEntry>, e: RepEntry, i: nat)
    requires 0 < i <= |d0| && Less(e.pattern, d0[i - 1].pattern)
    requires Inserted(d0, e) == Inserted(d0[..i], e) + d0[i..]
    ensures Inserted(d0, e) == Inserted(d0[..i - 1], e) + d0[i - 1..]
  {
    assert d0[..i][..i - 1] == d0[..i - 1];
    assert d0[i - 1..] == [d0[i - 1]] + d0[i..];
  }

  /** The entry goes after a last entry it is not below. */
  lemma InsertedStop(d0: seq<RepEntry>, e: RepEntry, i: nat)
    requires i <= |d0| && (i == 0 || !Less(e.pattern, d0[i - 1].pattern))
    ensures Inserted(d0[..i], e) == d0[..i] + [e]
  {
  }

  // ---------------------------------------------------------------------
  // The table object
  // ---------------------------------------------------------------------

  class RepList {
    var dat: seq<RepEntry>

    ghost predicate Valid()
      reads this
    {
      Table(dat)
    }

    /** RepList(n): an empty table (n only sizes the list's capacity). */
    constructor (n: int)
      ensures Valid() && dat == []
    {
      dat := [];
    }

    /** find(word, atstart): the binary search over the patterns. */
    method Find(word: string, atstart: nat) returns (r: int)
      requires atstart <= |word|
      ensures r == FindIn(dat, word[atstart..])
    {
      ghost var v := word[atstart..];
      var p1: nat, p2: int, ret: int := 0, |dat| - 1, -1;
      while p1 <= p2
        invariant p2 < |dat| && -1 <= ret < |dat|
        invariant ret >= 0 ==> CompareAt(v, dat[ret].pattern) == 0
        invariant FindFrom(dat, v, p1, p2, ret) == FindIn(dat, v)
        decreases p2 - p1
      {
        var m := Mid(p1, p2);
        var c := CompareAt(word[atstart..], dat[m].pattern);
        if c < 0 {
          p2 := m - 1;
        } else if c > 0 {
          p1 := m + 1;
        } else {
          ret := m;
          p1 := m + 1;
        }
      }
      r := ret;
    }

    /**
     * replace(wordlen, ind, atstart): the outstring of entry ind for the
     * context, falling back toward the middle-of-word slot while empty.
     */
    method Replace(wordlen: int, ind: nat, atstart: bool) returns (r: string)
      requires Shaped(dat) && ind < |dat|
      ensures r == ReplaceOut(dat[ind], wordlen, atstart)
    {
      var os := dat[ind].outstrings;
      var t := if atstart then 1 else 0;
      if wordlen == |dat[ind].pattern| {
        t := if atstart then 3 else 2;
      }
      ghost var ch := Chain(t, atstart);
      ghost var k := 0;
      while t != 0 && os[t] == []
        invariant t < 4 && k < |ch| && ch[k] == t
        invariant Chosen(os, ch[k..]) == ReplaceOut(dat[ind], wordlen, atstart)
        decreases t
      {
        assert ch[k..][1..] == ch[k + 1..];
        t := Fallback(t, atstart);
        k := k + 1;
      }
      r := os[t];
    }

    /**
     * add(pat1, pat2): 1 and no change for an empty argument; otherwise the
     * outstring is stored for its context, in the entry of the pattern when
     * there is one, else in a new entry inserted at its ordinal place.
     */
    method Add(pat1: string, pat2: string) returns (r: int)
      requires Valid()
      modifies this
      ensures Valid()
      ensures Added(r, dat) == AfterAdd(old(dat), pat1, pat2)
      ensures (|pat1| == 0 || |pat2| == 0) ==> r == 1 && dat == old(dat)
    {
      AddKeepsTable(dat, pat1, pat2);
      if |pat1| == 0 || |pat2| == 0 {
        return 1;
      }
      var (t, p) := Context(pat1);
      var o := Spaced(pat2);
      var m := Find(p, 0);
      assert p[0..] == p;
      if m >= 0 && dat[m].pattern == p {
        dat := dat[m := dat[m].(outstrings := dat[m].outstrings[t := o])];
        return 0;
      }
      dat := Insert(dat, Fresh(p, o, t));
      r := 0;
    }

    /** conv(word): the word with the table's replacements applied left to right. */
    method Conv(word: string) returns (r: string)
      requires Shaped(dat)
      ensures r == Converted(dat, word, 0)
    {
      var dest: string := [];
      var changed := false;
      var i0, i := 0, 0;
      ghost var target := Converted(dat, word, 0);
      assert word[0..0] == [];
      while i < |word|
        invariant 0 <= i0 <= i <= |word|
        invariant target == dest + word[i0..i] + Converted(dat, word, i)
        invariant !changed ==> dest == [] && i0 == 0
        decreases |word| - i
      {
        var dest', i0', i', hit := ConvStep(word, dest, i0, i);
        assert Advanced(dat, word, dest, i0, i, dest', i0', i');
        dest, i0, i := dest', i0', i';
        changed := changed || hit;
      }
      if !changed {
        assert word[0..|word|] == word;
        return word;
      }
      r := dest + word[i0..];
    }

    /**
     * One position of conv's loop: the replacement that applies at i is
     * emitted after the pending text, else word[i] joins the pending text.
     */
    method ConvStep(word: string, dest: string, i0: nat, i: nat) returns (dest': string, i0': nat, i': nat, hit: bool)
      requires Shaped(dat) && i0 <= i < |word|
      ensures i0' <= i' <= |word| && i < i'
      ensures Advanced(dat, word, dest, i0, i, dest', i0', i')
      ensures !hit ==> dest' == dest && i0' == i0
    {
      hide Converted, Advanced, FindIn, ReplaceOut;
      var n := Find(word, i);
      var l: string := [];
      if n >= 0 {
        l := Replace(|word| - i, n, i == 0);
      }
      ConvertedAt(dat, word, dest, i0, i, n, l);
      if l == [] {
        dest', i0', i', hit := dest, i0, i + 1, false;
      } else {
        i' := i + Advance(dat[n].pattern);
        dest', i0', hit := dest + word[i0..i] + l, i', true;
      }
    }

    /** check_against_breaktable: false exactly when some non-empty outstring contains a break pattern. */
    method CheckAgainstBreaktable(breaktable: seq<string>) returns (r: bool)
      ensures r <==> !Clashes(dat, breaktable)
    {
      var i := 0;
      while i < |dat|
        invariant 0 <= i <= |dat|
        invariant forall i', j, k :: (0 <= i' < i && 0 <= j < |dat[i'].outstrings| && 0 <= k < |breaktable|
                    && dat[i'].outstrings[j] != []) ==> !Contains(dat[i'].outstrings[j], breaktable[k])
      {
        var os := dat[i].outstrings;
        var j := 0;
        while j < |os|
          invariant 0 <= j <= |os|
          invariant forall i', j', k :: (0 <= i' < i && 0 <= j' < |dat[i'].outstrings| && 0 <= k < |breaktable|
                      && dat[i'].outstrings[j'] != []) ==> !Contains(dat[i'].outstrings[j'], breaktable[k])
          invariant forall j', k :: 0 <= j' < j && 0 <= k < |breaktable| && os[j'] != [] ==> !Contains(os[j'], breaktable[k])
        {
          if os[j] != [] {
            var k := 0;
            while k < |breaktable|
              invariant 0 <= k <= |breaktable|
              invariant forall k' :: 0 <= k' < k ==> !Contains(os[j], breaktable[k'])
            {
              var at := FirstOccurrence(breaktable[k], os[j], 0);
              if at >= 0 {
                assert Contains(os[j], breaktable[k]);
                assert dat[i].outstrings[j] != [] && Contains(dat[i].outstrings[j], breaktable[k]);
                return false;
              }
              k := k + 1;
            }
          }
          j := j + 1;
        }
        i := i + 1;
      }
      r := true;
    }
  }
}
