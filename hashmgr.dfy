/**
 * The dictionary hash table (HashMgr.cs): an array of bucket heads, each
 * the start of a chain of entries linked by `next`, and the homonym chains
 * linked by `next_homonym`. The entries live in an arena (`entries`, with
 * the two link fields as the parallel sequences `next` and `nextHomonym`,
 * -1 standing for `null`); the bucket chains are ghost lists that the
 * links realise.
 */
module HashMgr {
  import opened Base
  import opened Flags
  import opened Locale
  import opened HashLists
  import opened HashSpec
  import opened HashUpdate
  import opened HashResize
  import opened IgnoreChars
  import ListUtils
  import DicLines
  import opened PhReps

  /** H_OPT bits of an entry. */
  const H_OPT_PHON: int := 4
  const H_OPT_INITCAP: int := 8

  /** The largest affix-vector and word length add_word accepts (`short.MaxValue`). */
  const SHORT_MAX: int := 32767

  /** get_aliasm: the morphological alias with the given 1-based index; an index out of range gives null. */
  function GetAliasm(aliasm: seq<string>, index: int): (r: Option<string>)
    ensures r.Some? <==> 0 < index <= |aliasm|
    ensures r.Some? ==> r.value == aliasm[index - 1]
  {
    if 0 < index <= |aliasm| then Some(aliasm[index - 1]) else None
  }

  // ---------------------------------------------------------------------
  // The table

  class HashTable {
    /** The bucket heads (`tableptr`), -1 for an empty bucket. */
    var tableptr: array<int>
    /** The entries ever linked into the table, in the order they were added. */
    var entries: seq<HEntry>
    /** `next` of each entry: the following entry of its bucket chain. */
    var next: seq<int>
    /** `next_homonym` of each entry. */
    var nextHomonym: seq<int>
    var wordcount: int
    /** The REP entries the `ph:` fields of the descriptions add (`reptable`). */
    var reptable: seq<RepEntry>
    /** The bucket chains, as lists of arena indices. */
    ghost var chains: seq<seq<int>>

    /** COMPLEXPREFIXES: words (and descriptions without aliases) are stored reversed. */
    const complexprefixes: bool
    /** The IGNORE characters, when the option is given. */
    const ignorechars: Option<seq<char>>
    /** The AM morphological aliases; none given means descriptions are stored as they are. */
    const aliasm: seq<string>
    /** The FORBIDDENWORD flag. */
    const forbiddenword: Flag
    /** The culture's case mapping. */
    const textinfo: Casing
    /** The language is German or Hungarian (`langnum` is LANG.de or LANG.hu). */
    const langDeHu: bool

    ghost predicate Valid()
      reads this`tableptr, tableptr, this`entries, this`next, this`nextHomonym, this`chains
    {
      Consistent(tableptr[..], entries, next, nextHomonym, chains)
    }

    /** An empty table of the given size (the allocation of load_tables). */
    constructor(size: int, complexprefixes: bool, ignorechars: Option<seq<char>>, aliasm: seq<string>,
                forbiddenword: Flag, textinfo: Casing, langDeHu: bool)
      requires size > 0
      ensures Valid() && fresh(tableptr) && tableptr.Length == size && entries == [] && wordcount == 0 && reptable == []
      ensures this.complexprefixes == complexprefixes && this.ignorechars == ignorechars && this.aliasm == aliasm
      ensures this.forbiddenword == forbiddenword && this.textinfo == textinfo && this.langDeHu == langDeHu
    {
      this.complexprefixes, this.ignorechars, this.aliasm := complexprefixes, ignorechars, aliasm;
      this.forbiddenword, this.textinfo, this.langDeHu := forbiddenword, textinfo, langDeHu;
      reptable := [];
      tableptr := new int[size](_ => -1);
      entries, next, nextHomonym, wordcount := [], [], [], 0;
      chains := seq(size, _ => []);
    }

    /**
     * hash (both overloads): the slice word[start..end) is read two
     * characters per round, the first into hash1 and the second into
     * hash2.
     */
    static method Hash(word: seq<char>, start: int, length: int) returns (h: nat)
      requires 0 <= start <= |word| && (length >= 0 ==> start + length <= |word|)
      ensures h == HashOf(word[start..End(word, start, length)])
    {
      var end := if length < 0 then |word| else start + length;
      var hash1, hash2 := SEED, SEED;
      ghost var all := Rounds(word, start, end, SEED, SEED);
      var i := start;
      while i < end
        invariant start <= i <= end
        invariant Rounds(word, i, end, hash1, hash2) == all
      {
        hash1 := Mix(hash1, word[i]);
        i := i + 1;
        if i == end {
          assert (hash1, hash2) == all;
          break;
        }
        hash2 := Mix(hash2, word[i]);
        i := i + 1;
      }
      RoundsSlice(word, start, start, end, SEED, SEED);
      h := Combine((hash1, hash2));
    }

    /**
     * lookup(string): the entry of the bucket chain whose hash code, length
     * and characters match the slice; it is the first entry of the whole
     * table holding that word, and -1 means no entry holds it.
     */
    method Lookup(word: seq<char>, start: int, length: int) returns (r: int)
      requires Valid()
      requires 0 <= start <= |word| && (length >= 0 ==> start + length <= |word|)
      ensures r == Find(entries, word[start..End(word, start, length)])
    {
      var len := if length < 0 then |word| - start else length;
      var hv := Hash(word, start, len);
      var b := hv % tableptr.Length;
      ChainWalkable(tableptr[..], entries, next, nextHomonym, chains, b, word[start..start + len]);
      ghost var k;
      r, k := Walk(entries, next, tableptr[b], word, start, len, hv, word[start..start + len], chains[b]);
      ChainFind(tableptr[..], entries, next, nextHomonym, chains, word[start..start + len], k);
    }

    /**
     * The chain loop of lookup(string): the first entry of chain c whose
     * hash code, length and characters match word[start..start+len), and
     * its position k; k == |c| and -1 when none does.
     */
    static method Walk(es: seq<HEntry>, nx: seq<int>, head: int, word: seq<char>, start: int, len: int, hv: int,
                       ghost w: string, ghost c: seq<int>)
      returns (r: int, ghost k: int)
      requires Walkable(es, nx, c, w, hv) && head == Head(c)
      requires 0 <= start <= start + len <= |word| && w == word[start..start + len]
      ensures 0 <= k <= |c| && forall k' :: 0 <= k' < k ==> !HoldsAt(es, c, k', w)
      ensures k < |c| ==> HoldsAt(es, c, k, w) && r == c[k]
      ensures k == |c| ==> r == -1
    {
      var dp := head;
      k := 0;
      while dp != -1
        invariant 0 <= k <= |c| && dp == Head(c[k..]) && (dp == -1 ==> k == |c|)
        invariant forall k' :: 0 <= k' < k ==> !HoldsAt(es, c, k', w)
        decreases |c| - k
      {
        assert dp == c[k] && StepAt(es, nx, c, k, w, hv);
        assert c[k..][1..] == c[k + 1..];
        if hv == es[dp].hash && len == |es[dp].word| && word[start..start + len] == es[dp].word {
          assert HoldsAt(es, c, k, w);
          return dp, k;
        }
        assert !HoldsAt(es, c, k, w);
        dp := nx[dp];
        k := k + 1;
      }
      r := -1;
    }

    /**
     * lookup(char[]): as Lookup, with the characters of each candidate
     * compared one by one.
     */
    method LookupChars(word: array<char>, start: int, length: int) returns (r: int)
      requires Valid()
      requires 0 <= start <= word.Length && (length >= 0 ==> start + length <= word.Length)
      ensures r == Find(entries, word[start..End(word[..], start, length)])
    {
      var len := if length < 0 then word.Length - start else length;
      var hv := Hash(word[..], start, len);
      assert word[..][start..start + len] == word[start..start + len];
      var b := hv % tableptr.Length;
      ChainWalkable(tableptr[..], entries, next, nextHomonym, chains, b, word[start..start + len]);
      ghost var k;
      r, k := WalkChars(entries, next, tableptr[b], word, start, len, hv, word[start..start + len], chains[b]);
      ChainFind(tableptr[..], entries, next, nextHomonym, chains, word[start..start + len], k);
    }

    /** The chain loop of lookup(char[]). */
    static method WalkChars(es: seq<HEntry>, nx: seq<int>, head: int, word: array<char>, start: int, len: int, hv: int,
                            ghost w: string, ghost c: seq<int>)
      returns (r: int, ghost k: int)
      requires Walkable(es, nx, c, w, hv) && head == Head(c)
      requires 0 <= start <= start + len <= word.Length && w == word[start..start + len]
      ensures 0 <= k <= |c| && forall k' :: 0 <= k' < k ==> !HoldsAt(es, c, k', w)
      ensures k < |c| ==> HoldsAt(es, c, k, w) && r == c[k]
      ensures k == |c| ==> r == -1
    {
      var dp := head;
      k := 0;
      while dp != -1
        invariant 0 <= k <= |c| && dp == Head(c[k..]) && (dp == -1 ==> k == |c|)
        invariant forall k' :: 0 <= k' < k ==> !HoldsAt(es, c, k', w)
        decreases |c| - k
      {
        assert dp == c[k] && StepAt(es, nx, c, k, w, hv);
        assert c[k..][1..] == c[k + 1..];
        if hv == es[dp].hash && len == |es[dp].word| {
          var same := SameChars(word, start, es[dp].word);
          if same {
            return dp, k;
          }
        }
        assert !HoldsAt(es, c, k, w);
        dp := nx[dp];
        k := k + 1;
      }
      r := -1;
    }

    /** The inner loop of lookup(char[]): word[start..start+|w|) holds exactly the characters of w. */
    static method SameChars(word: array<char>, start: int, w: string) returns (same: bool)
      requires 0 <= start <= start + |w| <= word.Length
      ensures same <==> word[start..start + |w|] == w
    {
      var i := 0;
      while i < |w|
        invariant 0 <= i <= |w| && word[start..start + i] == w[..i]
      {
        if word[start + i] != w[i] {
          assert word[start..start + |w|][i] != w[i];
          return false;
        }
        assert word[start..start + i + 1] == word[start..start + i] + [word[start + i]];
        assert w[..i + 1] == w[..i] + [w[i]];
        i := i + 1;
      }
      assert w[..i] == w;
      return true;
    }

    /** The word add_word stores: the IGNORE characters dropped, then reversed under COMPLEXPREFIXES. */
    function Prepared(w: string): string
    {
      var s := if ignorechars.None? then w else Stripped(ignorechars.value, w);
      if complexprefixes then Reverse(s) else s
    }

    /** The data add_word stores: the alias a description names, or the description (reversed under COMPLEXPREFIXES). */
    function DataOf(desc: Option<string>): Option<string>
    {
      if desc.None? then None
      else if |aliasm| != 0 then GetAliasm(aliasm, ListUtils.Atoi(desc.value))
      else Some(if complexprefixes then Reverse(desc.value) else desc.value)
    }

    /** The entry add_word builds for a word, its flags, description and capitalisation. */
    function NewEntry(w: string, aff: Option<seq<Flag>>, desc: Option<string>, captype: CapType): HEntry
    {
      var data := DataOf(desc);
      HEntry(Prepared(w), aff,
             (if captype == INITCAP then H_OPT_INITCAP else 0) + (if DataContains(data, PHON) then H_OPT_PHON else 0),
             data, HashOf(Prepared(w)))
    }

    /** add_word refuses an affix vector or a prepared word longer than `short.MaxValue`. */
    function Admissible(w: string, aff: Option<seq<Flag>>): bool
    {
      (aff.None? || |aff.value| <= SHORT_MAX) && |Prepared(w)| <= SHORT_MAX
    }

    /**
     * add_word: refuses over-long input; otherwise stores the prepared entry
     * as Added describes, keeping the table consistent, and appends the REP
     * entries of the stored data's `ph:` fields to reptable.
     */
    method AddWord(inWord: string, aff: Option<seq<Flag>>, desc: Option<string>, onlyupcase: bool, captype: CapType)
      returns (ok: bool)
      requires Valid()
      modifies this, tableptr
      ensures Valid() && tableptr == old(tableptr) && wordcount == old(wordcount)
      ensures ok == Admissible(inWord, aff)
      ensures entries == if ok then Added(old(entries), NewEntry(inWord, aff, desc, captype), onlyupcase) else old(entries)
      ensures reptable == old(reptable) + if ok then DataReps(DataOf(desc), inWord, captype, textinfo, langDeHu) else []
    {
      hide DataReps, FirstOccurrence, Added, DataOf, HashOf;
      if aff.Some? && |aff.value| > SHORT_MAX {
        return false;
      }
      var word := RemoveIgnoredChars(inWord, ignorechars);
      var d := desc;
      if complexprefixes {
        word := Reverse(word);
        if d.Some? && |aliasm| == 0 {
          d := Some(Reverse(d.value));
        }
      }
      assert word == Prepared(inWord);
      if |word| > SHORT_MAX {
        return false;
      }
      var hp := Entry(inWord, word, aff, desc, d, captype);
      AddReps(hp.data, inWord, captype);
      AddEntry(hp, onlyupcase);
      ok := true;
    }

    /** The `ph:` part of add_word: each `ph:` field of the data adds its REP entries, field by field. */
    method AddReps(data: Option<string>, inWord: string, captype: CapType)
      modifies this`reptable
      ensures reptable == old(reptable) + DataReps(data, inWord, captype, textinfo, langDeHu)
    {
      hide FieldReps, SplitBlanks, FirstOccurrence;
      if !DataContains(data, PHON) {
        return;
      }
      var pieces := SplitBlanks(data.value);
      var i := 0;
      while i < |pieces|
        invariant 0 <= i <= |pieces|
        invariant reptable == old(reptable) + PiecesReps(pieces[..i], inWord, captype, textinfo, langDeHu)
      {
        var piece := pieces[i];
        if IsPrefix(PHON, piece) && |piece| > |PHON| {
          AddField(piece[|PHON|..], inWord, captype);
        }
        assert pieces[..i + 1][..i] == pieces[..i];
        i := i + 1;
      }
      assert pieces[..i] == pieces;
    }

    /** One `ph:` field with a non-empty value: its pattern and replacement, then its REP entries. */
    method AddField(ph0: string, inWord: string, captype: CapType)
      requires |ph0| > 0
      modifies this`reptable
      ensures reptable == old(reptable) + FieldReps(ph0, inWord, captype, textinfo, langDeHu)
    {
      var ph, wordpart := SplitField(ph0, inWord);
      AddPattern(ph, wordpart, captype);
    }

    /** The "->" test and the '*' rule of add_word on one non-empty `ph:` value. */
    static method SplitField(ph0: string, inWord: string) returns (ph: string, wordpart: string)
      requires |ph0| > 0
      ensures (ph, wordpart) == FieldPattern(ph0, inWord)
    {
      ph, wordpart := ph0, inWord;
      var s := FirstOccurrence(ARROW, ph, 0);
      if s > 0 && s < |ph| - 2 {
        wordpart := ph[s + 2..];
        ph := ph[..s];
      }
      assert (ph, wordpart) == Arrow(ph0, inWord);
      if ph[|ph| - 1] == '*' && |ph| > 2 && |wordpart| > 1 {
        ph := ph[..|ph| - 2];
        wordpart := wordpart[..|wordpart| - 1];
      }
    }

    /** The REP entries of one pattern and its replacement. */
    method AddPattern(ph: string, wordpart: string, captype: CapType)
      modifies this`reptable
      ensures reptable == old(reptable) + PatternReps(ph, wordpart, captype, textinfo, langDeHu)
    {
      if captype == INITCAP && CapTypeOf(textinfo, ph) == NOCAP {
        var capped := InitCapped(textinfo, ph);
        if |capped| > 0 {
          if langDeHu {
            reptable := reptable + [Rep(ph, LowerCase(textinfo, wordpart))];
          }
          reptable := reptable + [Rep(capped, wordpart)];
        }
      }
      reptable := reptable + [Rep(ph, wordpart)];
    }

    /** The entry part of add_word: hash, data (an alias or the description) and options. */
    method Entry(ghost inWord: string, word: string, aff: Option<seq<Flag>>, ghost desc: Option<string>,
                 d: Option<string>, captype: CapType) returns (hp: HEntry)
      requires word == Prepared(inWord)
      requires d == if complexprefixes && desc.Some? && |aliasm| == 0 then Some(Reverse(desc.value)) else desc
      ensures hp == NewEntry(inWord, aff, desc, captype) && hp.hash == HashOf(hp.word)
    {
      var hv := Hash(word, 0, -1);
      assert word[0..End(word, 0, -1)] == word;
      var data: Option<string> := None;
      if d.Some? {
        if |aliasm| != 0 {
          data := GetAliasm(aliasm, ListUtils.Atoi(d.value));
        } else {
          data := d;
        }
      }
      var opts := if captype == INITCAP then H_OPT_INITCAP else 0;
      if DataContains(data, PHON) {
        opts := opts + H_OPT_PHON;
      }
      assert data == DataOf(desc);
      hp := HEntry(word, aff, opts, data, hv);
    }

    /** The linking part of add_word, for the prepared entry hp. */
    method AddEntry(hp: HEntry, onlyupcase: bool)
      requires Valid() && hp.hash == HashOf(hp.word)
      modifies this, tableptr
      ensures Valid() && tableptr == old(tableptr) && wordcount == old(wordcount)
      ensures entries == Added(old(entries), hp, onlyupcase) && reptable == old(reptable)
    {
      var n := |entries|;
      var b := hp.hash % tableptr.Length;
      var es, nx, nhs := entries, next, nextHomonym;
      ghost var heads, ch := tableptr[..], chains;
      AddStart(heads, es, nx, nhs, ch, hp, b);
      ghost var L := Last(es, hp.word);
      ghost var c := ch[b];
      if tableptr[b] == -1 {
        AppendFirst(heads, es, nx, nhs, ch, hp, b);
        tableptr[b] := n;
        entries, next, nextHomonym, chains := es + [hp], nx + [-1], nhs + [-1], ch[b := [n]];
        assert tableptr[..] == heads[b := n];
        return;
      }
      var nh, hit, upcase, tail := AddWalk(es, nx, nhs, tableptr[b], hp.word, hp.hash, onlyupcase, n, c, L);
      if hit != -1 {
        var e := es[hit].(astr := hp.astr);
        KeysKeepConsistent(heads, es, es[hit := e], nx, nhs, ch);
        entries := es[hit := e];
        return;
      }
      if !upcase {
        AppendAfter(heads, es, nx, nhs, ch, hp, b, tail, L);
        next, nextHomonym, entries, chains := nx[tail := n] + [-1], nh + [-1], es + [hp], ch[b := c + [n]];
      }
    }

    /**
     * Remove: every homonym of word that does not yet test positive for the
     * FORBIDDENWORD flag gets it, appended and sorted into its flags.
     */
    method Remove(word: string)
      requires Valid()
      modifies this
      ensures Valid() && unchanged(this`tableptr, this`next, this`nextHomonym, this`wordcount)
      ensures entries == Marked(old(entries), word, forbiddenword) && reptable == old(reptable)
    {
      var dp := Lookup(word, 0, -1);
      assert word[0..End(word, 0, -1)] == word;
      var es := entries;
      ghost var target := Marked(es, word, forbiddenword);
      ScanSpec(es, word, 0);
      while dp != -1
        invariant dp == -1 || (0 <= dp < |entries| && entries[dp].word == word)
        invariant UpdatedBelow(entries, es, target, Reach(dp, |entries|))
        invariant unchanged(this)
        decreases if dp == -1 then 0 else |entries| - dp
      {
        var x := MarkEntry(es[dp], forbiddenword);
        HomonymStep(entries, nextHomonym, word, dp);
        UpdatedStep(entries, es, target, word, dp, nextHomonym[dp]);
        es := es[dp := x];
        dp := nextHomonym[dp];
      }
      assert es == target;
      KeysKeepConsistent(tableptr[..], entries, es, next, nextHomonym, chains);
      entries := es;
    }

    /** The body of Remove's walk for one homonym: fw appended to a grown copy of its flags, which is then sorted. */
    static method MarkEntry(x: HEntry, fw: Flag) returns (y: HEntry)
      ensures y == Forbidden(x, fw)
    {
      y := x;
      var hidden := TestAff(x.astr, fw);
      if !hidden {
        var fl := FlagList(x.astr);
        var a := new Flag[|fl| + 1];
        forall i | 0 <= i < |fl| {
          a[i] := fl[i];
        }
        a[|fl|] := fw;
        assert a[..] == fl + [fw];
        SortInPlace(a);
        y := x.(astr := Some(a[..]));
      }
    }

    /**
     * remove_forbidden_flag: every homonym of word that tests positive for
     * the FORBIDDENWORD flag loses all its flags.
     */
    method RemoveForbiddenFlag(word: string)
      requires Valid()
      modifies this
      ensures Valid() && unchanged(this`tableptr, this`next, this`nextHomonym, this`wordcount)
      ensures entries == Unmarked(old(entries), word, forbiddenword) && reptable == old(reptable)
    {
      var dp := Lookup(word, 0, -1);
      assert word[0..End(word, 0, -1)] == word;
      ScanSpec(entries, word, 0);
      if dp == -1 {
        assert entries == Unmarked(entries, word, forbiddenword);
        return;
      }
      var es := entries;
      ghost var target := Unmarked(es, word, forbiddenword);
      while dp != -1
        invariant dp == -1 || (0 <= dp < |entries| && entries[dp].word == word)
        invariant UpdatedBelow(entries, es, target, Reach(dp, |entries|))
        invariant unchanged(this)
        decreases if dp == -1 then 0 else |entries| - dp
      {
        var x := es[dp];
        var forbidden := TestAff(x.astr, forbiddenword);
        if forbidden {
          x := x.(astr := None);
        }
        HomonymStep(entries, nextHomonym, word, dp);
        UpdatedStep(entries, es, target, word, dp, nextHomonym[dp]);
        es := es[dp := x];
        dp := nextHomonym[dp];
      }
      assert es == target;
      KeysKeepConsistent(tableptr[..], entries, es, next, nextHomonym, chains);
      entries := es;
    }

    /**
     * The condition of add_hidden_capitalized_word: a mixed-case word, or an
     * all-caps one with flags, that is not a forbidden word.
     */
    function HiddenWanted(flags: Option<seq<Flag>>, captype: CapType): bool
    {
      var n := |FlagList(flags)|;
      (captype == HUHCAP || captype == HUHINITCAP || (captype == ALLCAP && n != 0)) &&
      !(n != 0 && Probe(flags, forbiddenword))
    }

    /** The hidden capitalised form of a word: lower-cased, then its first letter upper-cased. */
    function HiddenWord(word: string): string
    {
      InitCapped(textinfo, LowerCase(textinfo, word))
    }

    /** The entries after add_hidden_capitalized_word. */
    function WithHidden(es: seq<HEntry>, word: string, flags: Option<seq<Flag>>, dp: Option<string>, captype: CapType)
      : seq<HEntry>
    {
      var f := Some(WithOnlyUpcase(flags));
      if HiddenWanted(flags, captype) && Admissible(HiddenWord(word), f)
      then Added(es, NewEntry(HiddenWord(word), f, dp, INITCAP), true)
      else es
    }

    /** The REP entries add_hidden_capitalized_word adds: those of the description's `ph:` fields on the hidden form, when it is added. */
    function HiddenReps(word: string, flags: Option<seq<Flag>>, dp: Option<string>, captype: CapType): seq<RepEntry>
    {
      if HiddenWanted(flags, captype) && Admissible(HiddenWord(word), Some(WithOnlyUpcase(flags)))
      then DataReps(DataOf(dp), HiddenWord(word), INITCAP, textinfo, langDeHu)
      else []
    }

    /**
     * add_hidden_capitalized_word: for a mixed-case or flagged all-caps word
     * that is not forbidden, adds its capitalised form as a hidden
     * ONLYUPCASE homonym; the answer is add_word's, or true when nothing is
     * to be added.
     */
    method AddHiddenCapitalizedWord(word: string, flags: Option<seq<Flag>>, dp: Option<string>, captype: CapType)
      returns (ok: bool)
      requires Valid()
      modifies this, tableptr
      ensures Valid() && tableptr == old(tableptr) && wordcount == old(wordcount)
      ensures ok == (!HiddenWanted(flags, captype) || Admissible(HiddenWord(word), Some(WithOnlyUpcase(flags))))
      ensures entries == WithHidden(old(entries), word, flags, dp, captype)
      ensures reptable == old(reptable) + HiddenReps(word, flags, dp, captype)
    {
      var flagslen := if flags.Some? then |flags.value| else 0;
      var forbidden := false;
      if flagslen != 0 {
        forbidden := TestAff(flags, forbiddenword);
      }
      var wanted := (captype == HUHCAP || captype == HUHINITCAP || (captype == ALLCAP && flagslen != 0)) && !(flagslen != 0 && forbidden);
      assert wanted == HiddenWanted(flags, captype);
      if wanted {
        var fl := HiddenFlags(flags);
        var newWord := InitCapped(textinfo, LowerCase(textinfo, word));
        ok := AddWord(newWord, Some(fl), dp, true, INITCAP);
      } else {
        ok := true;
      }
    }

    /**
     * The entries after Add / AddWithFlags: the forbidden homonyms of the
     * word unmarked, the word added, then its hidden capitalised form.
     */
    function Personal(es: seq<HEntry>, word: string, aff: Option<seq<Flag>>, desc: Option<string>): seq<HEntry>
    {
      var captype := CapTypeOf(textinfo, word);
      var es1 := Unmarked(es, word, forbiddenword);
      var es2 := if Admissible(word, aff) then Added(es1, NewEntry(word, aff, desc, captype), false) else es1;
      WithHidden(es2, word, aff, desc, captype)
    }

    /** The REP entries Add / AddWithFlags add: those of the word's own add_word, then those of its hidden form. */
    function PersonalReps(word: string, aff: Option<seq<Flag>>, desc: Option<string>): seq<RepEntry>
    {
      var captype := CapTypeOf(textinfo, word);
      (if Admissible(word, aff) then DataReps(DataOf(desc), word, captype, textinfo, langDeHu) else [])
      + HiddenReps(word, aff, desc, captype)
    }

    /** After adding an admissible word, looking up its prepared form finds an entry. */
    lemma PersonalFinds(es: seq<HEntry>, word: string, aff: Option<seq<Flag>>, desc: Option<string>)
      requires Admissible(word, aff)
      ensures Find(Personal(es, word, aff, desc), Prepared(word)) != -1
    {
      var captype := CapTypeOf(textinfo, word);
      var es1 := Unmarked(es, word, forbiddenword);
      var x := NewEntry(word, aff, desc, captype);
      var es2 := Added(es1, x, false);
      AddedFinds(es1, x);
      ScanSpec(es1, x.word, 0);
      assert Find(es2, x.word) != -1;
      var f := Some(WithOnlyUpcase(aff));
      if HiddenWanted(aff, captype) && Admissible(HiddenWord(word), f) {
        var y := NewEntry(HiddenWord(word), f, desc, INITCAP);
        AddedHidden(es2, y);
        ScanAppend(es2, y, x.word, 0);
      }
    }

    /** Add: a word without flags or description added to the run-time dictionary. */
    method Add(word: string)
      requires Valid()
      modifies this, tableptr
      ensures Valid() && tableptr == old(tableptr) && wordcount == old(wordcount)
      ensures entries == Personal(old(entries), word, None, None) && reptable == old(reptable)
    {
      RemoveForbiddenFlag(word);
      var captype := GetCapType(word, textinfo);
      var _ := AddWord(word, None, None, false, captype);
      var _ := AddHiddenCapitalizedWord(word, None, None, captype);
    }

    /** AddWithFlags: a word with (decoded) affix flags and a morphological description. */
    method AddWithFlags(word: string, df: Option<seq<Flag>>, desc: Option<string>)
      requires Valid()
      modifies this, tableptr
      ensures Valid() && tableptr == old(tableptr) && wordcount == old(wordcount)
      ensures entries == Personal(old(entries), word, df, desc)
      ensures reptable == old(reptable) + PersonalReps(word, df, desc)
    {
      hide DataReps, HiddenReps, Added, WithHidden, Unmarked, DataOf, HashOf, FirstOccurrence;
      RemoveForbiddenFlag(word);
      var captype := GetCapType(word, textinfo);
      var _ := AddWord(word, df, desc, false, captype);
      var _ := AddHiddenCapitalizedWord(word, df, desc, captype);
    }

    /**
     * AddWithAffix: a word with the flags of a dictionary word; false, and
     * only the forbidden mark dropped, when the example is not in the
     * dictionary or has no flags (the example is looked up first).
     */
    method AddWithAffix(word: string, example: string) returns (r: bool)
      requires Valid()
      modifies this, tableptr
      ensures Valid() && tableptr == old(tableptr) && wordcount == old(wordcount)
      ensures var es1 := Unmarked(old(entries), word, forbiddenword); var d := Find(old(entries), example);
        r == (0 <= d < |es1| && es1[d].astr.Some?) &&
        entries == if r then Personal(old(entries), word, es1[d].astr, None) else es1
      ensures reptable == old(reptable)
    {
      var dp := Lookup(example, 0, -1);
      assert example[0..End(example, 0, -1)] == example;
      ScanSpec(entries, example, 0);
      RemoveForbiddenFlag(word);
      if dp != -1 && entries[dp].astr.Some? {
        var astr := entries[dp].astr;
        var captype := GetCapType(word, textinfo);
        var _ := AddWord(word, astr, None, false, captype);
        var _ := AddHiddenCapitalizedWord(word, astr, None, captype);
        return true;
      }
      return false;
    }

    /**
     * One line of a .dic file added as load_tables adds it: the word with
     * add_word, then its hidden capitalised form; ok turns false as soon as
     * one of the two refuses, keeping what was added before.
     */
    function LineAdded(es: seq<HEntry>, l: DicLines.DicLine, text: seq<byte> -> string,
                       flagsOf: seq<byte> -> Option<seq<Flag>>): Loaded
    {
      var word := text(l.word);
      var flags := if l.flags.Some? then flagsOf(l.flags.value) else None;
      var dp := if l.morph.Some? then Some(text(l.morph.value)) else None;
      var captype := CapTypeOf(textinfo, word);
      if !Admissible(word, flags) then Loaded(false, es)
      else
        Loaded(!HiddenWanted(flags, captype) || Admissible(HiddenWord(word), Some(WithOnlyUpcase(flags))),
               WithHidden(Added(es, NewEntry(word, flags, dp, captype), false), word, flags, dp, captype))
    }

    /** The lines added one after another, up to the first refusal. */
    function LinesAdded(es: seq<HEntry>, ls: seq<DicLines.DicLine>, text: seq<byte> -> string,
                        flagsOf: seq<byte> -> Option<seq<Flag>>): Loaded
    {
      if ls == [] then Loaded(true, es)
      else
        var o := LinesAdded(es, ls[..|ls| - 1], text, flagsOf);
        if !o.ok then o else LineAdded(o.es, ls[|ls| - 1], text, flagsOf)
    }

    /** The REP entries one line adds: those of its word, once add_word accepts it, then those of its hidden form. */
    function LineReps(l: DicLines.DicLine, text: seq<byte> -> string, flagsOf: seq<byte> -> Option<seq<Flag>>)
      : seq<RepEntry>
    {
      var word := text(l.word);
      var flags := if l.flags.Some? then flagsOf(l.flags.value) else None;
      var dp := if l.morph.Some? then Some(text(l.morph.value)) else None;
      var captype := CapTypeOf(textinfo, word);
      if !Admissible(word, flags) then []
      else DataReps(DataOf(dp), word, captype, textinfo, langDeHu) + HiddenReps(word, flags, dp, captype)
    }

    /** The REP entries of the lines added one after another, up to and including the first refused line. */
    function LinesReps(es: seq<HEntry>, ls: seq<DicLines.DicLine>, text: seq<byte> -> string,
                       flagsOf: seq<byte> -> Option<seq<Flag>>): seq<RepEntry>
    {
      if ls == [] then []
      else
        var p := ls[..|ls| - 1];
        LinesReps(es, p, text, flagsOf) + if LinesAdded(es, p, text, flagsOf).ok then LineReps(ls[|ls| - 1], text, flagsOf) else []
    }

    /** Once a line is refused, the later lines change nothing. */
    lemma {:induction false} RefusalStops(es: seq<HEntry>, ls: seq<DicLines.DicLine>, i: int, text: seq<byte> -> string,
                                          flagsOf: seq<byte> -> Option<seq<Flag>>)
      requires 0 <= i <= |ls| && !LinesAdded(es, ls[..i], text, flagsOf).ok
      ensures LinesAdded(es, ls, text, flagsOf) == LinesAdded(es, ls[..i], text, flagsOf)
      ensures LinesReps(es, ls, text, flagsOf) == LinesReps(es, ls[..i], text, flagsOf)
      decreases |ls| - i
    {
      if i < |ls| {
        var p := ls[..|ls| - 1];
        assert p[..i] == ls[..i];
        RefusalStops(es, p, i, text, flagsOf);
      } else {
        assert ls[..i] == ls;
      }
    }

    /** A line that is added keeps every word found before and makes its own word found. */
    lemma LineAddedFinds(es: seq<HEntry>, l: DicLines.DicLine, text: seq<byte> -> string,
                         flagsOf: seq<byte> -> Option<seq<Flag>>, w: string)
      requires LineAdded(es, l, text, flagsOf).ok
      ensures Find(LineAdded(es, l, text, flagsOf).es, Prepared(text(l.word))) != -1
      ensures Find(es, w) != -1 ==> Find(LineAdded(es, l, text, flagsOf).es, w) != -1
    {
      var word := text(l.word);
      var flags := if l.flags.Some? then flagsOf(l.flags.value) else None;
      var dp := if l.morph.Some? then Some(text(l.morph.value)) else None;
      var captype := CapTypeOf(textinfo, word);
      var x := NewEntry(word, flags, dp, captype);
      var es1 := Added(es, x, false);
      AddedFinds(es, x);
      if Find(es, w) != -1 {
        AddedKeeps(es, x, false, w);
      }
      if HiddenWanted(flags, captype) && Admissible(HiddenWord(word), Some(WithOnlyUpcase(flags))) {
        var y := NewEntry(HiddenWord(word), Some(WithOnlyUpcase(flags)), dp, INITCAP);
        AddedKeeps(es1, y, true, x.word);
        if Find(es1, w) != -1 {
          AddedKeeps(es1, y, true, w);
        }
      }
    }

    /** After a load without refusal, the word of every line is found, and so is every word found before. */
    lemma LinesAddedFind(es: seq<HEntry>, ls: seq<DicLines.DicLine>, text: seq<byte> -> string,
                         flagsOf: seq<byte> -> Option<seq<Flag>>, w: string)
      requires LinesAdded(es, ls, text, flagsOf).ok
      ensures forall i :: 0 <= i < |ls| ==> Find(LinesAdded(es, ls, text, flagsOf).es, Prepared(text(ls[i].word))) != -1
      ensures Find(es, w) != -1 ==> Find(LinesAdded(es, ls, text, flagsOf).es, w) != -1
    {
      LinesAddedKeep(es, ls, text, flagsOf, w);
      forall i | 0 <= i < |ls| ensures Find(LinesAdded(es, ls, text, flagsOf).es, Prepared(text(ls[i].word))) != -1 {
        LinesAddedHas(es, ls, text, flagsOf, i);
      }
    }

    /** A load without refusal keeps every word found before. */
    lemma {:induction false} LinesAddedKeep(es: seq<HEntry>, ls: seq<DicLines.DicLine>, text: seq<byte> -> string,
                                            flagsOf: seq<byte> -> Option<seq<Flag>>, w: string)
      requires LinesAdded(es, ls, text, flagsOf).ok
      ensures Find(es, w) != -1 ==> Find(LinesAdded(es, ls, text, flagsOf).es, w) != -1
      decreases |ls|
    {
      if ls != [] {
        LinesAddedStep(es, ls, text, flagsOf, w);
        LinesAddedKeep(es, ls[..|ls| - 1], text, flagsOf, w);
      }
    }

    /**
     * The last line of a load without refusal: the lines before it were
     * accepted, what they found is still found, and its own word is found.
     */
    lemma LinesAddedStep(es: seq<HEntry>, ls: seq<DicLines.DicLine>, text: seq<byte> -> string,
                         flagsOf: seq<byte> -> Option<seq<Flag>>, w: string)
      requires LinesAdded(es, ls, text, flagsOf).ok && ls != []
      ensures LinesAdded(es, ls[..|ls| - 1], text, flagsOf).ok
      ensures Find(LinesAdded(es, ls[..|ls| - 1], text, flagsOf).es, w) != -1 ==> Find(LinesAdded(es, ls, text, flagsOf).es, w) != -1
      ensures Find(LinesAdded(es, ls, text, flagsOf).es, Prepared(text(ls[|ls| - 1].word))) != -1
    {
      var o := LinesAdded(es, ls[..|ls| - 1], text, flagsOf);
      LineAddedFinds(o.es, ls[|ls| - 1], text, flagsOf, w);
    }

    /** After a load without refusal, the word of line i is found. */
    lemma {:induction false} LinesAddedHas(es: seq<HEntry>, ls: seq<DicLines.DicLine>, text: seq<byte> -> string,
                                           flagsOf: seq<byte> -> Option<seq<Flag>>, i: int)
      requires LinesAdded(es, ls, text, flagsOf).ok && 0 <= i < |ls|
      ensures Find(LinesAdded(es, ls, text, flagsOf).es, Prepared(text(ls[i].word))) != -1
      decreases |ls|
    {
      var v := Prepared(text(ls[i].word));
      LinesAddedStep(es, ls, text, flagsOf, v);
      if i < |ls| - 1 {
        var p := ls[..|ls| - 1];
        assert ls[i] == p[i];
        LinesAddedHas(es, p, text, flagsOf, i);
      }
    }

    /**
     * The word loop of load_tables: every line split and added in turn,
     * stopping at the first refusal of add_word or
     * add_hidden_capitalized_word.
     */
    method LoadLines(lines: seq<seq<byte>>, text: seq<byte> -> string, flagsOf: seq<byte> -> Option<seq<Flag>>)
      returns (ok: bool)
      requires Valid()
      modifies this, tableptr
      ensures Valid() && tableptr == old(tableptr) && wordcount == old(wordcount)
      ensures LinesAdded(old(entries), SplitAll(lines), text, flagsOf) == Loaded(ok, entries)
      ensures reptable == old(reptable) + LinesReps(old(entries), SplitAll(lines), text, flagsOf)
    {
      ghost var es0 := entries;
      ghost var ls := SplitAll(lines);
      assert ls[..0] == [];
      assert LinesAdded(es0, ls[..0], text, flagsOf) == Loaded(true, entries) && LinesReps(es0, ls[..0], text, flagsOf) == [];
      var i := 0;
      while i < |lines|
        invariant 0 <= i <= |lines| && Valid() && tableptr == old(tableptr) && wordcount == old(wordcount)
        invariant LinesAdded(es0, ls[..i], text, flagsOf) == Loaded(true, entries)
        invariant reptable == old(reptable) + LinesReps(es0, ls[..i], text, flagsOf)
      {
        ok := LoadAt(lines, i, es0, old(reptable), text, flagsOf);
        if !ok {
          return;
        }
        i := i + 1;
      }
      assert ls[..i] == ls;
      ok := true;
    }

    /**
     * One round of the line loop: line i split and added. On a refusal the
     * whole load is over, as if the later lines were not there.
     */
    method LoadAt(lines: seq<seq<byte>>, i: int, ghost es0: seq<HEntry>, ghost r0: seq<RepEntry>,
                  text: seq<byte> -> string, flagsOf: seq<byte> -> Option<seq<Flag>>)
      returns (ok: bool)
      requires Valid() && 0 <= i < |lines|
      requires LinesAdded(es0, SplitAll(lines)[..i], text, flagsOf) == Loaded(true, entries)
      requires reptable == r0 + LinesReps(es0, SplitAll(lines)[..i], text, flagsOf)
      modifies this, tableptr
      ensures Valid() && tableptr == old(tableptr) && wordcount == old(wordcount)
      ensures ok ==> LinesAdded(es0, SplitAll(lines)[..i + 1], text, flagsOf) == Loaded(true, entries)
      ensures ok ==> reptable == r0 + LinesReps(es0, SplitAll(lines)[..i + 1], text, flagsOf)
      ensures !ok ==> LinesAdded(es0, SplitAll(lines), text, flagsOf) == Loaded(false, entries)
      ensures !ok ==> reptable == r0 + LinesReps(es0, SplitAll(lines), text, flagsOf)
    {
      hide LineAdded, LineReps, DataReps, LinesAdded, LinesReps, SplitAll;
      ghost var ls := SplitAll(lines);
      var l := DicLines.SplitDicLine(lines[i]);
      SplitAllAt(lines, i);
      LinesAddedSnoc(es0, ls, i, text, flagsOf);
      ghost var e1, r1 := entries, reptable;
      ghost var a, b := LinesReps(es0, ls[..i], text, flagsOf), LineReps(l, text, flagsOf);
      ok := LoadLine(l, text, flagsOf);
      assert LinesAdded(es0, ls[..i + 1], text, flagsOf) == LineAdded(e1, l, text, flagsOf) == Loaded(ok, entries);
      assert reptable == r0 + a + b == r0 + LinesReps(es0, ls[..i + 1], text, flagsOf);
      if !ok {
        RefusalStops(es0, ls, i + 1, text, flagsOf);
      }
    }

    /** One step of the line loop. */
    lemma LinesAddedSnoc(es: seq<HEntry>, ls: seq<DicLines.DicLine>, i: int, text: seq<byte> -> string,
                         flagsOf: seq<byte> -> Option<seq<Flag>>)
      requires 0 <= i < |ls|
      ensures LinesAdded(es, ls[..i + 1], text, flagsOf) ==
        var o := LinesAdded(es, ls[..i], text, flagsOf); if !o.ok then o else LineAdded(o.es, ls[i], text, flagsOf)
      ensures LinesReps(es, ls[..i + 1], text, flagsOf) ==
        LinesReps(es, ls[..i], text, flagsOf) + if LinesAdded(es, ls[..i], text, flagsOf).ok then LineReps(ls[i], text, flagsOf) else []
    {
      assert ls[..i + 1][..i] == ls[..i];
    }

    /** The body of the line loop: add_word, then add_hidden_capitalized_word, for one split line. */
    method LoadLine(l: DicLines.DicLine, text: seq<byte> -> string, flagsOf: seq<byte> -> Option<seq<Flag>>)
      returns (ok: bool)
      requires Valid()
      modifies this, tableptr
      ensures Valid() && tableptr == old(tableptr) && wordcount == old(wordcount)
      ensures LineAdded(old(entries), l, text, flagsOf) == Loaded(ok, entries)
      ensures reptable == old(reptable) + LineReps(l, text, flagsOf)
    {
      hide DataReps, HiddenReps, Added, WithHidden, DataOf, HashOf, FirstOccurrence;
      var flags := if l.flags.Some? then flagsOf(l.flags.value) else None;
      var dp := if l.morph.Some? then Some(text(l.morph.value)) else None;
      var word := text(l.word);
      var captype := GetCapType(word, textinfo);
      ok := AddWord(word, flags, dp, false, captype);
      if ok {
        ok := AddHiddenCapitalizedWord(word, flags, dp, captype);
      }
    }

    /**
     * The REP entries load_tables adds: none for an empty file or a word
     * count the sizing refuses, otherwise those of the lines up to the first
     * refusal. A ludicrous count or a dropped table does not take them back.
     */
    function RepsLoaded(dic: seq<seq<byte>>, size: Option<int>, wc: int, es: seq<HEntry>, text: seq<byte> -> string,
                        flagsOf: seq<byte> -> Option<seq<Flag>>): seq<RepEntry>
    {
      if dic == [] || DicLines.TablePlan(DicLines.Expected(dic[0]), size, wc).Invalid? then []
      else LinesReps(es, SplitAll(dic[1..]), text, flagsOf)
    }

    /**
     * load_tables on a table that is already there (a further dictionary):
     * an empty file adds nothing; a word count the sizing refuses loads
     * nothing; otherwise the table is rehashed into the planned size when
     * crowded, the lines are added, and a ludicrous word count is refused
     * after them. The line count goes to wordcount only on success.
     */
    method LoadTables(dic: seq<seq<byte>>, text: seq<byte> -> string, flagsOf: seq<byte> -> Option<seq<Flag>>)
      returns (ok: bool)
      requires Valid()
      modifies this, tableptr
      ensures Valid()
      ensures dic == [] ==> ok && entries == old(entries) && tableptr == old(tableptr)
      ensures dic != [] ==>
        var expected := DicLines.Expected(dic[0]);
        var plan := DicLines.TablePlan(expected, Some(old(tableptr.Length)), old(wordcount));
        var loaded := LinesAdded(old(entries), SplitAll(dic[1..]), text, flagsOf);
        (plan.Invalid? ==> !ok && entries == old(entries) && tableptr == old(tableptr)) &&
        (!plan.Invalid? ==>
          entries == loaded.es && ok == (loaded.ok && !DicLines.Ludicrous(expected, |dic| - 1)) &&
          tableptr.Length == (if plan.Grow? then plan.size else old(tableptr.Length)))
      ensures wordcount == if ok && dic != [] then DicLines.AddInt(old(wordcount), |dic| - 1) else old(wordcount)
      ensures reptable == old(reptable) + RepsLoaded(dic, Some(old(tableptr.Length)), old(wordcount), old(entries), text, flagsOf)
    {
      if dic == [] {
        return true;
      }
      var expected := DicLines.Expected(dic[0]);
      var plan := DicLines.TablePlan(expected, Some(tableptr.Length), wordcount);
      if plan.Invalid? {
        return false;
      }
      if plan.Grow? {
        DicLines.TablePlanSound(expected, Some(tableptr.Length), wordcount);
        Regrow(plan.size);
      }
      assert |dic[1..]| == |dic| - 1;
      ok := LoadWords(dic[1..], expected, text, flagsOf);
    }

    /** The resize of load_tables, seen from outside: the same entries in a fresh table of the new size. */
    method Regrow(size: int)
      requires Valid() && size > 0
      modifies this
      ensures Valid() && fresh(tableptr) && tableptr.Length == size
      ensures entries == old(entries) && wordcount == old(wordcount) && reptable == old(reptable)
    {
      Resize(size);
    }

    /**
     * The part of load_tables after the sizing: the lines added, then the
     * ludicrous-count refusal, then wordcount += nLineCount in 32-bit
     * arithmetic on success.
     */
    method LoadWords(lines: seq<seq<byte>>, expected: int, text: seq<byte> -> string,
                     flagsOf: seq<byte> -> Option<seq<Flag>>)
      returns (ok: bool)
      requires Valid()
      modifies this, tableptr
      ensures Valid() && tableptr == old(tableptr)
      ensures var loaded := LinesAdded(old(entries), SplitAll(lines), text, flagsOf);
        entries == loaded.es && ok == (loaded.ok && !DicLines.Ludicrous(expected, |lines|))
      ensures wordcount == if ok then DicLines.AddInt(old(wordcount), |lines|) else old(wordcount)
      ensures reptable == old(reptable) + LinesReps(old(entries), SplitAll(lines), text, flagsOf)
    {
      ok := LoadLines(lines, text, flagsOf);
      if ok && DicLines.Ludicrous(expected, |lines|) {
        ok := false;
      }
      if ok {
        CountLines(|lines|);
      }
    }

    /** wordcount += n, in 32-bit arithmetic. */
    method CountLines(n: int)
      requires Valid()
      modifies this`wordcount
      ensures Valid() && wordcount == DicLines.AddInt(old(wordcount), n)
    {
      wordcount := DicLines.AddInt(wordcount, n);
    }

    /**
     * LoadDic: the first load_tables, with no table yet. An empty file
     * leaves no table (null); a refused word count, a refused line or a
     * ludicrous count leave a fresh one-bucket table; otherwise the table
     * has the planned size and holds the lines.
     */
    static method LoadDic(dic: seq<seq<byte>>, text: seq<byte> -> string, flagsOf: seq<byte> -> Option<seq<Flag>>,
                          complexprefixes: bool, ignorechars: Option<seq<char>>, aliasm: seq<string>,
                          forbiddenword: Flag, textinfo: Casing, langDeHu: bool)
      returns (t: HashTable?)
      ensures dic == [] <==> t == null
      ensures t != null ==> fresh(t) && t.Valid()
      ensures t != null ==> (t.complexprefixes == complexprefixes && t.ignorechars == ignorechars && t.aliasm == aliasm &&
                             t.forbiddenword == forbiddenword && t.textinfo == textinfo && t.langDeHu == langDeHu)
      ensures t != null ==>
        var expected := DicLines.Expected(dic[0]);
        var plan := DicLines.TablePlan(expected, None, 0);
        var loaded := t.LinesAdded([], SplitAll(dic[1..]), text, flagsOf);
        if plan.Invalid? || !loaded.ok || DicLines.Ludicrous(expected, |dic| - 1)
        then t.entries == [] && t.tableptr.Length == 1 && t.wordcount == 0
        else t.entries == loaded.es && t.tableptr.Length == plan.size && t.wordcount == DicLines.AddInt(0, |dic| - 1)
      ensures t != null ==> t.reptable == t.RepsLoaded(dic, None, 0, [], text, flagsOf)
    {
      if dic == [] {
        return null;
      }
      var expected := DicLines.Expected(dic[0]);
      var plan := DicLines.TablePlan(expected, None, 0);
      DicLines.TablePlanSound(expected, None, 0);
      if plan.Invalid? {
        t := new HashTable(1, complexprefixes, ignorechars, aliasm, forbiddenword, textinfo, langDeHu);
        return;
      }
      t := new HashTable(plan.size, complexprefixes, ignorechars, aliasm, forbiddenword, textinfo, langDeHu);
      assert |dic[1..]| == |dic| - 1;
      var ok := t.LoadWords(dic[1..], expected, text, flagsOf);
      if !ok {
        t.Drop();
      }
    }

    /** `tableptr = new hentry[1]`: a single empty bucket, the entries loaded so far no longer reachable. */
    method Drop()
      modifies this
      ensures Valid() && fresh(tableptr) && tableptr.Length == 1 && entries == [] && wordcount == old(wordcount)
      ensures reptable == old(reptable)
    {
      tableptr := new int[1](_ => -1);
      entries, next, nextHomonym := [], [], [];
      chains := [[]];
    }

    /**
     * walk_hashtable: the entries bucket by bucket, each chain from its
     * head; every entry is visited exactly once (WalkCoversOnce).
     */
    method WalkHashtable() returns (r: seq<int>)
      requires Valid()
      ensures r == Concat(chains)
    {
      r := [];
      var col := 0;
      while col < tableptr.Length
        invariant 0 <= col <= tableptr.Length
        invariant r == Concat(chains[..col])
      {
        RealizesLinked(next, chains, col);
        var part := ChainWalk(next, tableptr[col], chains[col]);
        ConcatSnoc(chains, col);
        r := r + part;
        col := col + 1;
      }
      assert chains[..col] == chains;
    }

    /** Following the links from head visits the list head starts. */
    static method ChainWalk(nx: seq<int>, head: int, ghost c: seq<int>) returns (r: seq<int>)
      requires Linked(nx, c) && head == Head(c)
      ensures r == c
    {
      r := [];
      var hp := head;
      ghost var k := 0;
      while hp != -1
        invariant 0 <= k <= |c| && hp == Head(c[k..]) && r == c[..k]
        decreases |c| - k
      {
        assert c[k..][1..] == c[k + 1..] && c[..k + 1] == c[..k] + [hp];
        r := r + [hp];
        hp := nx[hp];
        k := k + 1;
      }
      assert c[..k] == c;
    }

    /**
     * Resize: every entry is pushed onto a stack through its `next` link,
     * bucket by bucket (Gather), and then popped into the front of its
     * bucket in a fresh table of newSize buckets (Spread). The entries and
     * homonym links stay; the new chains are the rehashed ones.
     */
    method Resize(newSize: int)
      requires Valid() && newSize > 0
      modifies this
      ensures Valid() && fresh(tableptr) && tableptr.Length == newSize
      ensures entries == old(entries) && nextHomonym == old(nextHomonym) && wordcount == old(wordcount)
      ensures chains == Rehashed(old(entries), old(chains), newSize) && reptable == old(reptable)
    {
      GatherStart(tableptr[..], entries, next, nextHomonym, chains);
      ghost var S;
      var nx, top;
      nx, top, S := Gather(tableptr, next, chains);
      SpreadStart(entries, chains, nx, S, seq(|chains|, _ => []), newSize);
      var tp, nx' := Spread(entries, nx, top, S, newSize, chains);
      RehashedConsistent(tableptr[..], entries, next, nextHomonym, chains, newSize, tp[..], nx');
      tableptr, next, chains := tp, nx', Rehashed(entries, chains, newSize);
    }

    /** Phase one of Resize: the chains of heads, walked in bucket order, stacked through the links. */
    static method Gather(heads: array<int>, nx0: seq<int>, ghost chains: seq<seq<int>>)
      returns (nx: seq<int>, top: int, ghost S: seq<int>)
      requires |chains| == heads.Length && forall b :: 0 <= b < heads.Length ==> heads[b] == Head(chains[b])
      requires Gathering(chains, nx0, [], chains, 0)
      ensures |nx| == |nx0| && top == Head(S)
      ensures Gathering(chains, nx, S, seq(|chains|, _ => []), |chains|)
    {
      nx, top, S := nx0, -1, [];
      ghost var T := chains;
      var i := 0;
      while i < heads.Length
        invariant Gathering(chains, nx, S, T, i) && top == Head(S) && |nx| == |nx0|
        invariant i < |T| ==> T[i] == chains[i]
      {
        var hp := heads[i];
        GatherHead(chains, nx, S, T, i);
        while hp != -1
          invariant Gathering(chains, nx, S, T, i) && top == Head(S) && hp == Head(T[i]) && |nx| == |nx0|
          invariant T[i] != [] ==> 0 <= T[i][0]
          decreases |T[i]|
        {
          GatherStep(chains, nx, S, T, i);
          var nxt := nx[hp];
          nx := nx[hp := top];
          top := hp;
          S, T := [hp] + S, T[i := T[i][1..]];
          GatherHead(chains, nx, S, T, i);
          hp := nxt;
        }
        GatherNext(chains, nx, S, T, i);
        i := i + 1;
      }
      assert T == seq(|chains|, _ => []);
    }

    /** Phase two of Resize: the stack popped, each entry onto the front of its bucket in a fresh table of n buckets. */
    static method Spread(es: seq<HEntry>, nx0: seq<int>, top0: int, ghost S0: seq<int>, n: int, ghost chains: seq<seq<int>>)
      returns (tp: array<int>, nx: seq<int>)
      requires n > 0 && Spreading(es, chains, n, nx0, S0, seq(n, _ => [])) && top0 == Head(S0) && |nx0| == |es|
      ensures fresh(tp) && tp.Length == n && |nx| == |es|
      ensures forall b :: 0 <= b < n ==> tp[b] == Head(Rehashed(es, chains, n)[b])
      ensures Realizes(nx, Rehashed(es, chains, n)) && Disjoint(Rehashed(es, chains, n))
    {
      tp := new int[n](_ => -1);
      nx := nx0;
      var top := top0;
      ghost var S, N := S0, seq(n, _ => []);
      if S != [] {
        assert LinkAt(nx, [S] + N, 0, 0);
      }
      while top != -1
        invariant Spreading(es, chains, n, nx, S, N) && top == Head(S) && |nx| == |es|
        invariant forall b :: 0 <= b < n ==> tp[b] == Head(N[b])
        invariant S != [] ==> 0 <= S[0]
        decreases |S|
      {
        assert LinkAt(nx, [S] + N, 0, 0);
        var nxt := nx[top];
        var b := es[top].hash % n;
        SpreadStep(es, chains, n, nx, S, N, b);
        nx := nx[top := tp[b]];
        tp[b] := top;
        N := N[b := [top] + N[b]];
        S := S[1..];
        if S != [] {
          assert LinkAt(nx, [S] + N, 0, 0);
        }
        top := nxt;
      }
      SpreadEnd(es, chains, n, nx, N);
    }

    /**
     * The chain walk of add_word, over the values of the links: it stops at
     * the tail of chain c, marking the last homonym L of w on its way (or,
     * for a hidden ONLYUPCASE homonym, returning it to take the flags).
     */
    static method AddWalk(es: seq<HEntry>, nx: seq<int>, nh: seq<int>, head: int, w: string, hv: int, onlyupcase: bool,
                          n: int, ghost c: seq<int>, ghost L: int)
      returns (nh': seq<int>, hit: int, upcase: bool, tail: int)
      requires Addable(es, nx, nh, c, w, hv, L) && c != [] && head == Head(c)
      ensures hit == -1 ==> tail == c[|c| - 1] && 0 <= tail < |nx|
      ensures L == -1 ==> hit == -1 && nh' == nh && !upcase
      ensures L != -1 && onlyupcase ==> hit == -1 && nh' == nh && upcase
      ensures L != -1 && !onlyupcase && Probe(es[L].astr, ONLYUPCASEFLAG) ==> hit == L
      ensures L != -1 && !onlyupcase && !Probe(es[L].astr, ONLYUPCASEFLAG) ==> hit == -1 && nh' == Relink(nh, L, n) && !upcase
    {
      ghost var kL := -1;
      if L != -1 {
        kL :| 0 <= kL < |c| && c[kL] == L;
      }
      var dp := head;
      ghost var k := 0;
      nh', upcase := nh, false;
      while nx[dp] != -1
        invariant 0 <= k < |c| && dp == c[k] && StepAt(es, nx, c, k, w, hv)
        invariant L != -1 ==> 0 <= kL < |c| && c[kL] == L
        invariant !(L != -1 && kL < k) ==> nh' == nh && !upcase
        invariant L != -1 && kL < k ==> Found(es, nh, L, n, onlyupcase, nh', upcase)
        decreases |c| - k
      {
        assert StepAt(es, nx, c, k, w, hv) && EndAt(es, nh, c, k, w, L);
        if nh'[dp] == -1 && hv == es[dp].hash && w == es[dp].word {
          if !onlyupcase {
            var hidden := TestAff(es[dp].astr, ONLYUPCASEFLAG);
            if hidden {
              return nh', dp, false, dp;
            }
            nh' := nh'[dp := n];
          } else {
            upcase := true;
          }
        }
        dp := nx[dp];
        k := k + 1;
      }
      assert StepAt(es, nx, c, k, w, hv);
      if hv == es[dp].hash && w == es[dp].word {
        if !onlyupcase {
          var hidden := TestAff(es[dp].astr, ONLYUPCASEFLAG);
          if hidden {
            return nh', dp, false, dp;
          }
          nh' := nh'[dp := n];
        } else {
          upcase := true;
        }
      }
      hit, tail := -1, dp;
    }
  }

  /** How far a load got: whether every line was accepted, and the entries then. */
  datatype Loaded = Loaded(ok: bool, es: seq<HEntry>)

  /** Every line of the file split as load_tables splits it. */
  function SplitAll(lines: seq<seq<byte>>): (r: seq<DicLines.DicLine>)
    ensures |r| == |lines|
  {
    if lines == [] then [] else SplitAll(lines[..|lines| - 1]) + [DicLines.SplitLine(lines[|lines| - 1])]
  }

  /** The i-th split line is the i-th line split. */
  lemma {:induction false} SplitAllAt(lines: seq<seq<byte>>, i: int)
    requires 0 <= i < |lines|
    ensures SplitAll(lines)[i] == DicLines.SplitLine(lines[i])
  {
    if i < |lines| - 1 {
      var p := lines[..|lines| - 1];
      SplitAllAt(p, i);
      assert p[i] == lines[i];
    }
  }

  /** The effect of add_word's walk once it has passed the last homonym L. */
  ghost predicate Found(es: seq<HEntry>, nh: seq<int>, L: int, n: int, onlyupcase: bool, nh': seq<int>, upcase: bool)
  {
    0 <= L < |es| &&
    (onlyupcase ==> nh' == nh && upcase) &&
    (!onlyupcase ==> !Probe(es[L].astr, ONLYUPCASEFLAG) && nh' == Relink(nh, L, n) && !upcase)
  }
}
