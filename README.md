# HunspellSharp core in Dafny

This project models the core of HunspellSharp, a C# port of the Hunspell
spell checker, and proves properties of that model. The engine decides
whether a word is a legal inflected or compounded form of a dictionary
word, and does the table and string work around that decision. Each part
of the model follows the form of the code it models: loops that change
buffers, arrays, lists or object fields are methods on classes or arrays,
with loop invariants and frames. Each such method is proved against a
specification function, and the properties the code promises are lemmas
about those functions. Pure code is modelled as functions and lemmas.

Modules, by file:

- `base.dfy` (Base): options, results that may throw, sequence search, reversal, prefixes and suffixes.
- `flags.dfy` (Flags): sorted duplicate-free flag sets, TESTAFF, SortRemoveDuplicates.
- `flagcodec.dfy` (FlagCodec): decode_flag, decode_flags and encode_flag in the CHAR, LONG, NUM and UNI modes.
- `conditions.dfy` (Conditions): the affix condition language and both test_condition readings; condlen and encodeit.
- `condprep.dfy` (CondPrep): reverse_word_condition and redundant_condition, which prepare a condition when an affix is loaded.
- `affentry.dfy` (AffixEntry): PfxEntry and SfxEntry: add, checkword, the homonym scan and the reversed key.
- `ordinal.dfy`, `walk.dfy`, `afftree.dfy`, `afflinks.dfy`, `affindex.dfy` (Ordinal, SubsetWalk, AffixTree, AffixLinks, AffixIndex): isSubset and isRevSubset, the per-letter affix trees, the sorted `next` chains and the `nextEQ`/`nextNE` pruning links, and the pruned walk compared with a scan of the whole chain.
- `affcheck.dfy` (AffixCheck): prefix_check, suffix_check, their _twosfx forms and affix_check, with the match context returned explicitly.
- `cpdrules.dfy`, `cpdvetoes.dfy`, `compound.dfy` (CompoundRules, CompoundVetoes, Compound): defcpd_check, get_syllable and setcminmax, the boundary vetoes, and the split search of compound_check.
- `hashspec.dfy`, `hashlists.dfy`, `hashmgr.dfy`, `hashupdate.dfy`, `resize.dfy`, `dicline.dfy`, `phreps.dfy` (HashSpec, HashLists, HashMgr, HashUpdate, HashResize, DicLines, PhReps): the dictionary hash table with its bucket and homonym chains, lookup, add_word with the REP entries its `ph:` fields add, Remove, Resize, remove_forbidden_flag, the table sizing of load_tables and the split of a dictionary line.
- `replist.dfy` (RepLists): the replacement table's sorted insert, binary-search find, replace and conv.
- `suggest.dfy`, `sugcheck.dfy`, `metrics.dfy` (Suggest, SuggestCheck, SuggestMetrics): the candidate generators, checkword and testsug of the suggester, and the string metrics lcs, lcslen, ngram, leftcommonsubstring and commoncharacterpositions.
- `spellfront.dfy`, `spellbreak.dfy`, `sharps.dfy`, `xmlpar.dfy`, `ignore.dfy` (SpellFront, SpellBreak, SpellSharps, SpellXml, IgnoreChars): cleanword and cleanword2, the numeric-token check and the break logic of spell, the candidate_stack guard, spellsharps, the de-duplication pass of suggest, the small XML helpers, and remove_ignored_chars.
- `bytes.dfy`, `extensions.dfy`, `strhelper.dfy`, `utils.dfy`, `heap.dfy`, `locale.dfy` (ByteView, Extensions, StrHelper, ListUtils, Heap, Locale): the byte view and its tokenizer, the string and char-array helpers, the pooled buffers, reverseword and mkinitcap, the list helpers, Heapify, and get_captype over a case-mapping oracle.
- `encodings.dfy` (SingleByte, Iso8859_10, Iso8859_14): the ISO/IEC 8859-10 and ISO/IEC 8859-14 code tables from A1 to FF, with GetBytes, GetChars and their counts.
- `hzipcode.dfy`, `hunzip.dfy` (HzipCode, HzipReader): the hzip code-trie construction, bit decoding and prefix-shared line reconstruction.
- `phonet.dfy` (Phonet): the phonetic rule table and the phonet rewriter.
- `countdown.dfy` (Countdown): the sticky-expiry CountdownTimer.

Oracles and inputs:

- Dictionary lookup is the hash-table model, or a function from a word to its homonym chain where a module needs only that.
- Case mapping and character classes (TextInfo.ToUpper and ToLower, char.IsUpper, IsLetter, IsDigit) are functions passed in as a parameter.
- The clock is a function passed in.
- Input streams are byte sequences.
- The thread-local match context is passed and returned explicitly.

The model follows the code, also where it disagrees with its
documentation, except for the defects listed under "## Findings". For each
of those, one member models the code as written and exhibits the defect,
and a corrected definition is what the rest of the model uses:

- `FlagCodec.NumFlag`, used by DecodeFlag and DecodeFlagsInto;
- `DicLines.TablePlan` and the corrected `DicLines.FindSlash`, used by the dictionary loaders of HashMgr;
- `Extensions.IndexOfArray`, used by Extensions.IndexOf;
- the corrected inner length of `AffixCheck.SfxCheckTwoSfx`, used by every two-level suffix check and by affix_check, and through them by the suggestion checker (SuggestCheck), the compound vetoes (CompoundVetoes) and the compound checker (Compound);
- the corrected `CompoundVetoes.CpdRep`, used by Compound from SubVetoes up to CompoundCheck, and by SuggestCheck.CheckWord;
- `Phonet.FindCarets`, used by phonet;
- `Suggest.TwoWordsGood`, the specification of Suggest.TwoWords;
- the corrected `ByteView.Bytes.Contains` and `SpellFront.CleanWord`;
- `ListUtils.LineUniqAppCorrected` and `CompoundRules.SyllablesFrom`, stated beside their as-written versions.

The rows of the members that use a corrected definition, directly or
through the members they call, start with "corrected" and name the
Findings row, and each of those members has its own line under
"## Left out"; so do the lemmas stated of specification functions that
use one. Lemmas whose inputs lie where the corrected and the as-written
definitions agree are not marked: the NUM round trips of FlagCodec read
only non-negative numbers, where `NumFlagAsWritten` agrees with `NumFlag`.

Equal affix keys end up in the sorted chain in reverse insertion order, as
the in-order traversal places them. C#'s culture-sensitive
`string.IndexOf` is modelled as an ordinal search.

## Model

| member | source | states |
|---|---|---|
| Countdown.CountdownTimer.CheckExpired | CountdownTimer.cs:10-19 | one check moves the countdown and answers exactly as one step of the countdown automaton (`Tick`) from the old countdown, reading the clock only at the step that reaches 0 |
| Countdown.TickExact | CountdownTimer.cs:10-19 | a check answers true exactly when it leaves the countdown at 0, and the countdown never exceeds 100 |
| Countdown.Sticky | CountdownTimer.cs:12 | once expired, every further check answers true whatever the clock shows, and the countdown stays 0 |
| Countdown.ClockReadOnlyAtZero | CountdownTimer.cs:12-16 | a check from any countdown other than 1 does not depend on the clock |
| Countdown.CountsDown | CountdownTimer.cs:13-18 | fewer checks than the countdown all answer false and lower it by one each |
| Countdown.RestartReadsAtPeriod | CountdownTimer.cs:13-23 | after a restart the first 99 checks answer false and the 100th answers whether more than 50 ms have elapsed |
| Countdown.AnswersAppend | CountdownTimer.cs:10-19 | the answers of two runs of checks in a row are the answers of the first followed by those of the second from where the first left the countdown |
| Countdown.CountdownTimer.IsExpired | CountdownTimer.cs:21 | an expired timer answers true to every check, whatever the clock shows, and stays expired |
| Countdown.CountdownTimer.SetExpired | CountdownTimer.cs:21 | assigning IsExpired forces the countdown to 0, so the getter then answers true |
| Countdown.CountdownTimer.Restart | CountdownTimer.cs:23 | Restart gives a full period of 100 checks and the timer is not expired |
| Extensions.StartsWith | Extensions.cs:9-15 | the backward comparison answers true exactly when the character array is a prefix of the string |
| Extensions.EndsWith | Extensions.cs:17-23 | the comparison from both ends answers true exactly when the character array is a suffix of the string |
| Extensions.Length | Extensions.cs:25-33 | the length of the text for a string or a character array, and the NotSupportedException case for any other sequence |
| Extensions.At | Extensions.cs:35-43 | the character at the index for a string or a character array, and the NotSupportedException case for any other sequence |
| Extensions.SameForBothKinds | Extensions.cs:25-43 | Length and At give the same answers whether the characters are held in a string or an array |
| Extensions.CopyTo | Extensions.cs:45-53 | the copied window of the destination equals the source window, every other cell of the destination is unchanged, and other sequence kinds fail |
| Extensions.SearchArray | Extensions.cs:60-69 | the char[] search loop with window slack finds the first occurrence of the value starting below the window bound, or -1 |
| Extensions.RestMatches | Extensions.cs:65-66 | the inner loop succeeds exactly when the whole value occurs at the candidate position |
| Extensions.FirstBelowSkip | Extensions.cs:64 | positions whose character differs from the value's first character can be skipped without changing the answer |
| Extensions.IndexOfArrayAsWritten | Extensions.cs:60-69 | the array branch as written answers the first occurrence starting before `|s| - |value| - 1`, so the last two candidate positions are never tried |
| Extensions.IndexOfArrayMissesTail | Extensions.cs:63 | "b" in "ab": the as-written search answers -1 while "b" occurs at position 1 |
| Extensions.IndexOfArray | Extensions.cs:59-69 | the array branch with the window the string branch uses answers exactly the first occurrence at or after start |
| Extensions.BelowIsFirst | Extensions.cs:59 | the bounded search with bound `|s| - |v| + 1` is the ordinary first-occurrence search |
| Extensions.IndexOf | Extensions.cs:55-72 | corrected (the char[] kind searches the window of the string kind, Findings row Extensions.cs:60-69): both kinds answer the first occurrence of the value at or after start; other sequence kinds throw |
| Extensions.TrimRecLen | Extensions.cs:76-82 | the trimmed length drops exactly the trailing record separators and never the first character |
| Extensions.TrimRec | Extensions.cs:76-82 | the builder keeps exactly the prefix of length TrimRecLen of its old text |
| SingleByte.IndexIn | Encodings/Iso8859_10.cs:27 | Array.IndexOf on the table: the first index holding the character, and -1 exactly when the character is not in the table |
| SingleByte.EncodeAll | Encodings/Iso8859_10.cs:24-28 | one byte per character, each the encoding of the character at the same position |
| SingleByte.DecodeAll | Encodings/Iso8859_10.cs:38-42 | one character per byte, each the decoding of the byte at the same position |
| SingleByte.LowIdentity | Encodings/Iso8859_10.cs:27-41 | bytes and characters below 0xA1 are mapped to themselves in both directions |
| SingleByte.Unmapped | Encodings/Iso8859_10.cs:27 | a character at or above 0xA1 that is not in the table encodes as '?' (0x3F) |
| SingleByte.ByteRoundTrip | Encodings/Iso8859_10.cs:22-44 | with a table of 95 distinct characters at or above 0xA1, decoding a byte and encoding the result gives the byte back |
| SingleByte.CharRoundTrip | Encodings/Iso8859_10.cs:22-44 | a character below 0xA1 or in the table survives encoding and decoding |
| SingleByte.BytesRoundTrip | Encodings/Iso8859_10.cs:22-44 | encoding the decoding of a whole byte sequence gives it back |
| SingleByte.GetByteCount | Encodings/Iso8859_10.cs:18-20 | the count is the length of the encoding GetBytes writes for that window |
| SingleByte.GetCharCount | Encodings/Iso8859_10.cs:32-34 | the count is the length of the decoding GetChars writes for that window |
| SingleByte.GetBytes | Encodings/Iso8859_10.cs:22-30 | the byte array receives the encoding of the character window at byteIndex and is unchanged elsewhere; a non-positive count writes nothing; the answer is charCount |
| SingleByte.GetChars | Encodings/Iso8859_10.cs:36-44 | the character array receives the decoding of the byte window at charIndex and is unchanged elsewhere; a non-positive count writes nothing; the answer is byteCount |
| Iso8859_10.AboveA0Ok | Encodings/Iso8859_10.cs:46-58 | the ISO-8859-10 table holds 95 distinct characters, all at or above 0xA1, so the round-trip lemmas apply to it |
| Iso8859_10.RoundTrip | Encodings/Iso8859_10.cs:22-44 | with the ISO-8859-10 table, decoding any byte and encoding the result gives the byte back |
| Iso8859_14.AboveA0Ok | Encodings/Iso8859_14.cs:46-58 | the ISO-8859-14 table holds 95 distinct characters, all at or above 0xA1, so the round-trip lemmas apply to it |
| Iso8859_14.RoundTrip | Encodings/Iso8859_14.cs:22-44 | with the ISO-8859-14 table, decoding any byte and encoding the result gives the byte back |
| StrHelper.StringHelper.constructor | StringHelper.cs:8-12 | a new helper starts with both pools empty |
| StrHelper.StringHelper.PopBuffer | StringHelper.cs:14-19 | with an empty pool or a request above 100 a fresh buffer of max(size, 25) is made and the pool is untouched; otherwise the top buffer is popped and returned when long enough, else replaced by a fresh one; the answer always holds at least size characters |
| StrHelper.StringHelper.PushBuffer | StringHelper.cs:21-24 | the buffer is pushed exactly when fewer than 100 are pooled and it holds at most 100 characters; otherwise the pool is unchanged |
| StrHelper.StringHelper.PeekBuffer | StringHelper.cs:26-40 | the pool ends as Peeked says: a top buffer of at least size characters is returned and the pool is unchanged; otherwise a fresh buffer of max(size, 25) characters is returned, and when size is below 100 it replaces the top, or becomes the only buffer of an empty pool, while for size 100 or more the pool is left alone |
| StrHelper.PeekedOnTop | StringHelper.cs:26-40 | after a peek below 100 characters the answer is the top of the pool and long enough, so a following PopBuffer of that size returns it |
| StrHelper.StringHelper.ReverseWord | StringHelper.cs:42-50 | reverseword answers the word read backward; a word below 2 characters leaves the pool alone, a longer one leaves it as PeekBuffer of the word's length does |
| StrHelper.FillReversed | StringHelper.cs:47-48 | after the copy and Array.Reverse the buffer's first cells, as many as the word has characters, hold the word reversed |
| StrHelper.StringHelper.MapFirst | StringHelper.cs:52-76 | the answer has the word's length, its first character mapped and every other character kept; an empty or one-character word, or a first character the mapping keeps, leaves the pool alone, and otherwise the pool is left as PeekBuffer of the word's length does |
| StrHelper.StringHelper.MkInitCap | StringHelper.cs:52-63 | mkinitcap changes only the first character, to its upper-case form; the pool is left alone below 2 characters or when upper-casing keeps the first character, and otherwise as PeekBuffer leaves it |
| StrHelper.StringHelper.MkInitSmall | StringHelper.cs:65-76 | mkinitsmall changes only the first character, to its lower-case form; the pool is left alone below 2 characters or when lower-casing keeps the first character, and otherwise as PeekBuffer leaves it |
| StrHelper.StringHelper.PopStringBuilder | StringHelper.cs:79-85 | an empty builder: a fresh one when the pool is empty, otherwise the popped top, emptied |
| StrHelper.StringHelper.PushStringBuilder | StringHelper.cs:87-90 | the builder is pushed exactly when fewer than 30 are pooled |
| StrHelper.StringHelper.ToStringPushStringBuilder | StringHelper.cs:92-97 | the answer is the builder's text, and the builder is pushed exactly when fewer than 30 are pooled |
| Locale.GetCapType | Utils.cs:39-59 | the backward scan with its early exit answers the capitalisation class stated over the whole word; empty words are NOCAP; INITCAP exactly when the first character is upper case and no later one is |
| Locale.InitCapShape | Utils.cs:57-58 | an upper-case first character followed by lower-case ones gives INITCAP |
| Locale.UpperTailNotPlain | Utils.cs:47-58 | a word of two or more characters whose tail is all upper case is ALLCAP or HUHCAP |
| HzipCode.Decrypt | Hunzip.cs:81-140 | the key stream: without a key the bytes are unchanged, with one each byte is xored with the key byte its position in the stream selects |
| HzipCode.DecryptAt | Hunzip.cs:83-139 | byte j of a block decrypted from stream position t is xored with key byte (t + j) modulo the key length |
| HzipCode.DecryptTwice | Hunzip.cs:83-139 | decrypting twice from the same stream position gives the bytes back |
| HzipCode.Avail | Hunzip.cs:41-177 | a Read of count bytes gets the next bytes of the input, fewer only at its end |
| HzipCode.ParseCode | Hunzip.cs:97-140 | a code record: two bytes, a bit length l and (l >> 3) + 1 bytes of bits, all within the input, or nothing when the input ends first |
| HzipCode.ParseCodes | Hunzip.cs:95-164 | n code records in a row, each well formed, or nothing when one is cut off |
| HzipCode.ParseCodesStep | Hunzip.cs:95-164 | reading the records one at a time: a record read moves to the done list and the reading goes on after it |
| HzipCode.ParseCodesCut | Hunzip.cs:98-132 | a cut-off record makes the whole reading fail |
| HzipCode.Grow | Hunzip.cs:148-160 | a missing child grows a new blank node at lastbit + 1 and links it from its parent |
| HzipCode.Extend | Hunzip.cs:142-161 | following a code's bits from a node grows the tree only by new nodes and ends at a node in use |
| HzipCode.Insert | Hunzip.cs:142-163 | entering a code keeps every link pointing at a node in use |
| HzipCode.Build | Hunzip.cs:95-164 | entering the codes in order keeps the tree linked |
| HzipCode.Walk | Hunzip.cs:143-147 | a walk along a code's bits that stays on existing links ends at a node in use |
| HzipCode.GrowKeeps | Hunzip.cs:150-158 | growing a node keeps every link that existed and every leaf's bytes |
| HzipCode.ExtendKeeps | Hunzip.cs:142-161 | extending keeps every existing link |
| HzipCode.InsertKeeps | Hunzip.cs:142-163 | entering a code keeps every existing link |
| HzipCode.WalkKept | Hunzip.cs:143-147 | a walk that succeeds in a tree succeeds the same way in any tree that keeps its links |
| HzipCode.ExtendWalk | Hunzip.cs:142-161 | after extending, walking the same bits reaches the node the extension ended at |
| HzipCode.InsertFinds | Hunzip.cs:142-163 | after entering a code, walking its bits reaches a node holding its two bytes |
| HzipCode.BuildReaches | Hunzip.cs:95-164 | after entering all codes the walk of every code's bits succeeds, and the tree keeps the links it started with |
| HzipCode.BuildLast | Hunzip.cs:162-163 | the last code entered is found with its bytes |
| HzipCode.Scan | Hunzip.cs:179-207 | the bit loop of getbuf: the output only grows, by whole pairs, and stops at the end of the block, at the last leaf or with a full buffer |
| HzipCode.ScanLeaves | Hunzip.cs:179-207 | what the bit loop writes is the pairs of the leaves it reaches, plus the odd last byte when it stops at the last leaf |
| HzipCode.GetBufClosed | Hunzip.cs:173-213 | getbuf with the input closed and no block pending throws |
| HzipCode.GetBufShape | Hunzip.cs:169-214 | every answer of getbuf extends what was decoded, is -1 or the number of bytes decoded, stays within BUFSIZE, and is short of a full buffer only when it closed the stream |
| HzipCode.StrippedAt | Hunzip.cs:278-288 | the trimmed line is the window from i of length n the code computes |
| HzipCode.StripCrLf | Hunzip.cs:285-288 | a trailing "\r\n" is removed |
| HzipCode.StripLf | Hunzip.cs:285-288 | a trailing "\n" not preceded by "\r" is removed |
| HzipCode.StripNone | Hunzip.cs:285 | a line not ending in "\n" is kept |
| HzipCode.StripBom | Hunzip.cs:279-283 | on the first line a UTF-8 byte order mark is removed before the line end is trimmed |
| HzipReader.LexRaws | Hunzip.cs:227-263 | reading the bytes of well-formed tokens gives the tokens back |
| HzipReader.Hunzip.constructor | Hunzip.cs:16-32 | a new reader over the input: buffers of BUFSIZE, BUFSIZE + 1 and BUFSIZE + 50 bytes, an empty tree, nothing decoded, the first line pending |
| HzipReader.Hunzip.Read | Hunzip.cs:41-75 | a stream Read returns the next available bytes and moves the position by their number |
| HzipReader.Hunzip.ReadInto | Hunzip.cs:128-177 | a Read into a buffer writes the available bytes at its front and leaves the rest |
| HzipReader.Hunzip.Start | Hunzip.cs:28-32 | the constructor's work: a header that throws throws, a bad header leaves bufsiz -1, a good one builds the tree and decodes the first buffer |
| HzipReader.Hunzip.GetCode | Hunzip.cs:34-167 | getcode succeeds, fails or throws exactly as the header and records of the input say, and on success leaves the tree built from the records |
| HzipReader.Hunzip.Header | Hunzip.cs:40-92 | the magic number, the password check and the record count, decrypted with the key |
| HzipReader.Hunzip.Magic | Hunzip.cs:40-72 | a missing magic number "hz0"/"hz1", a missing key, a missing checksum or a wrong one is a failure; otherwise the records follow with the key or none |
| HzipReader.Hunzip.Checksum | Hunzip.cs:62-63 | the checksum is the exclusive or of all key bytes |
| HzipReader.Hunzip.EnterAll | Hunzip.cs:95-164 | the record loop succeeds exactly when all n records can be read, and then the tree is the one built from them |
| HzipReader.Hunzip.ReadRecord | Hunzip.cs:97-140 | one record is read exactly when the input holds it, decrypted as the key stream says |
| HzipReader.Hunzip.ReadHead | Hunzip.cs:98-125 | the two code bytes and the length byte of a record, decrypted |
| HzipReader.Hunzip.DecryptBlock | Hunzip.cs:134-140 | the block of code bits is decrypted in place and the rest of the buffer is unchanged |
| HzipReader.Hunzip.Enter | Hunzip.cs:142-163 | entering a record changes the tree exactly as Insert says |
| HzipReader.Hunzip.Bit | Hunzip.cs:145 | the bit of the buffer at position j, the most significant bit of each byte first |
| HzipReader.Hunzip.Descend | Hunzip.cs:145-160 | an existing child is followed; a missing one is grown as Grow says |
| HzipReader.Hunzip.GetBuf | Hunzip.cs:169-214 | getbuf answers what GetBufSpec says for the state it starts in |
| HzipReader.Hunzip.ScanBlock | Hunzip.cs:179-207 | the bit loop over the current block changes the output buffer and the bit position exactly as Scan says |
| HzipReader.Hunzip.EmitLast | Hunzip.cs:186-199 | at the last leaf the odd byte is added when the leaf's first byte is not 0 |
| HzipReader.Hunzip.EmitPair | Hunzip.cs:201-205 | a leaf writes its two bytes and the walk restarts from the root with the same bit |
| HzipReader.Hunzip.Take | Hunzip.cs:229-263 | one token is read into linebuf at position l, and an end of line gives the left and right counts of the next line |
| HzipReader.Hunzip.Gather | Hunzip.cs:227-269 | the gathering loop of ReadLine: the bytes gathered are the characters of well-formed tokens of the decoded buffer, ending at an end of line or at the end of the buffer |
| HzipReader.Hunzip.Assemble | Hunzip.cs:270-276 | the line is the first left bytes of the previous one, then the gathered bytes, with the previous line's last right + 1 bytes replacing the last one; an array copy out of range throws |
| HzipReader.Hunzip.Carry | Hunzip.cs:270-274 | the end of the previous line is copied over the gathered bytes' last byte |
| HzipReader.Hunzip.Place | Hunzip.cs:275-276 | the gathered bytes are placed after the first left bytes of the line |
| HzipReader.Hunzip.Trim | Hunzip.cs:278-290 | the result is the line with the byte order mark (first line only) and the line end removed, and later lines are not first |
| HzipReader.Hunzip.ReadLine | Hunzip.cs:216-291 | no line once bufsiz is -1; otherwise the line decoded from well-formed tokens, joined with the previous line and stripped, or Throws when getbuf or an array copy throws |
| HashMgr.GetAliasm | AffixMgr.cs:4383-4388 | an alias exists exactly for a 1-based index within the alias list, and it is the entry at index - 1; any other index gives none |
| HashMgr.HashTable.constructor | HashMgr.cs:414-415 | the table allocated by load_tables is empty, of the requested size, with no words counted |
| HashMgr.HashTable.Hash | HashMgr.cs:523-547 | the load-and-rotate hash of word[start..end) (end the word's end when the length is negative) equals the hash specification of that slice, so it depends only on the characters hashed |
| HashMgr.HashTable.Lookup | HashMgr.cs:29-42 | lookup(string) returns the first entry of the whole table holding the word, and null exactly when no entry holds it |
| HashMgr.HashTable.Walk | HashMgr.cs:33-41 | the chain walk stops at the first chain position whose hash, length and characters match, or reports the chain exhausted with no match before it |
| HashMgr.HashTable.LookupChars | HashMgr.cs:44-60 | lookup(char[]) finds the same entry as lookup(string) for the characters of the slice |
| HashMgr.HashTable.WalkChars | HashMgr.cs:48-59 | the char-array chain walk stops at the first matching position, or at the end with no match before it |
| HashMgr.HashTable.SameChars | HashMgr.cs:51-56 | the character-by-character comparison succeeds exactly when the slice of the array equals the entry's word |
| HashMgr.HashTable.AddWord | HashMgr.cs:63-249 | add_word refuses exactly the inadmissible (over-long) input; otherwise the entries become the specified addition (append at the bucket's tail, or flags taken over by a hidden ONLYUPCASE homonym), the table stays consistent, and reptable is extended by the REP entries of the stored data's `ph:` fields (PhReps.DataReps), nothing being added on refusal |
| HashMgr.HashTable.Entry | HashMgr.cs:96-111 | the prepared entry carries the word's hash, the INITCAP option for an initial-capital word, and the alias or the description as its data |
| HashMgr.HashTable.AddEntry | HashMgr.cs:191-248 | linking the prepared entry into its bucket performs exactly the specified addition and keeps every chain and homonym link consistent |
| HashMgr.HashTable.AddWalk | HashMgr.cs:199-242 | the bucket walk ends at the chain's tail; it hits the last homonym when that one carries ONLYUPCASE and a visible word is added, links the last homonym to the new entry otherwise, and only marks a hidden form as present |
| HashMgr.HashTable.Remove | HashMgr.cs:288-305 | Remove marks every homonym of the word with the FORBIDDENWORD flag, sorted into its flags, and changes nothing else in the table; reptable is unchanged |
| HashMgr.HashTable.MarkEntry | HashMgr.cs:293-301 | one homonym not yet forbidden gets FORBIDDENWORD appended to a grown copy of its flags, which is then sorted |
| HashMgr.HashTable.RemoveForbiddenFlag | HashMgr.cs:308-319 | every homonym of the word that carries FORBIDDENWORD loses all its flags; the table is otherwise unchanged; reptable is unchanged |
| HashMgr.HashTable.AddHiddenCapitalizedWord | HashMgr.cs:252-282 | for a mixed-case word, or an all-caps word with flags, that is not forbidden, the capitalised form is added as a hidden homonym with ONLYUPCASE spliced into its flags; otherwise nothing changes and the answer is true; when the hidden form is added, reptable gains the REP entries of the `ph:` fields of its description on that form (HiddenReps), and otherwise it is unchanged |
| HashMgr.HashTable.PersonalFinds | HashMgr.cs:325-347 | after Add or AddWithFlags of an admissible word, looking up the word finds an entry |
| HashMgr.HashTable.Add | HashMgr.cs:325-332 | Add drops the forbidden mark, adds the word without flags or description, then its hidden capitalised form; with no description there is no `ph:` field, so reptable is unchanged |
| HashMgr.HashTable.AddWithFlags | HashMgr.cs:340-347 | AddWithFlags does the same with the decoded flags and the morphological description; reptable gains the REP entries of the description's `ph:` fields for the word, when add_word accepts it, then for its hidden form, when that is added (PersonalReps) |
| HashMgr.HashTable.AddWithAffix | HashMgr.cs:356-378 | AddWithAffix always drops the forbidden mark; it adds the word with the example's flags exactly when the example is in the dictionary with flags, and reports whether it did; no description is passed, so reptable is unchanged |
| HashMgr.HashTable.RefusalStops | HashMgr.cs:503-505 | once a line is refused, loading stops: later lines change neither the entries nor the REP entries added |
| HashMgr.HashTable.LineAddedFinds | HashMgr.cs:500-505 | an accepted line makes its own word found and keeps every word found before |
| HashMgr.HashTable.LinesAddedFind | HashMgr.cs:424-506 | after a load without refusal, the word of every line is found and every word found before is still found |
| HashMgr.HashTable.LinesAddedKeep | HashMgr.cs:424-506 | a load without refusal never loses a word |
| HashMgr.HashTable.LinesAddedHas | HashMgr.cs:424-506 | after a load without refusal, the word of each line is found |
| HashMgr.HashTable.LoadLines | HashMgr.cs:424-506 | corrected (lines are split as DicLines.SplitDicLine, Findings row HashMgr.cs:466-479): the line loop splits and adds each line in turn and stops at the first refusal; the result is the specified fold over the split lines; reptable gains the REP entries of the lines up to and including the first refused one (LinesReps) |
| HashMgr.HashTable.LoadAt | HashMgr.cs:424-505 | corrected (the line is split as DicLines.SplitDicLine, Findings row HashMgr.cs:466-479): one round of the line loop adds line i as the fold over the split lines specifies, entries and REP entries alike; after a refusal the state is already that of the whole load, since the later lines change nothing |
| HashMgr.HashTable.LoadLine | HashMgr.cs:500-505 | one line is add_word followed by add_hidden_capitalized_word, refused when either refuses; reptable gains the line's REP entries: its word's when add_word accepts it, then its hidden form's when that is added (LineReps) |
| HashMgr.HashTable.LoadTables | HashMgr.cs:389-518 | corrected (the sizing guards the true sum, Findings row HashMgr.cs:401-405, and lines are split as DicLines.SplitDicLine, Findings row HashMgr.cs:466-479): on an existing table: an empty file adds nothing and succeeds; a refused word count loads nothing and fails; otherwise the table is regrown when crowded, the lines are added, a ludicrous count fails, and success adds the line count to wordcount; reptable gains the REP entries of the loaded lines, also when a ludicrous count fails, and none for an empty file or a refused word count (RepsLoaded) |
| HashMgr.HashTable.Regrow | HashMgr.cs:416-417 | the resize of load_tables keeps the same entries in a fresh table of the requested size; reptable is unchanged |
| HashMgr.HashTable.LoadWords | HashMgr.cs:421-517 | corrected (lines are split as DicLines.SplitDicLine, Findings row HashMgr.cs:466-479): after the sizing: the lines are added, a ludicrous expected count is refused, and wordcount grows by the line count in 32-bit arithmetic only on success; reptable gains the REP entries of the loaded lines, also when a ludicrous count fails |
| HashMgr.HashTable.CountLines | HashMgr.cs:515 | wordcount += nLineCount, wrapping as a C# int |
| HashMgr.HashTable.LoadDic | HashMgr.cs:22-26 | corrected (the sizing guards the true sum, Findings row HashMgr.cs:401-405, and lines are split as DicLines.SplitDicLine, Findings row HashMgr.cs:466-479): an empty file leaves no table; a refused word count, a refused line or a ludicrous count leave a single empty bucket and no words; otherwise the table has the planned odd size, holds exactly the loaded entries and counts the lines; reptable holds the REP entries of the loaded lines, and keeps them when a refused line or a ludicrous count drops the table (RepsLoaded) |
| HashMgr.HashTable.Drop | HashMgr.cs:25 | after a failed load the table is a single empty bucket; reptable and wordcount are kept |
| HashMgr.HashTable.WalkHashtable | HashMgr.cs:381-386 | walk_hashtable yields the chains bucket by bucket; by WalkCoversOnce every entry is yielded exactly once |
| HashMgr.HashTable.ChainWalk | HashMgr.cs:384-385 | following the next links from a bucket head yields exactly that bucket's chain |
| HashMgr.HashTable.Resize | HashMgr.cs:549-571 | Resize keeps every entry and homonym link and leaves the table consistent, with each bucket holding the rehashed chain of the new size; reptable is unchanged |
| HashMgr.HashTable.Gather | HashMgr.cs:552-560 | phase one stacks every entry, bucket by bucket, through the next links |
| HashMgr.HashTable.Spread | HashMgr.cs:562-570 | phase two pops the stack onto the fronts of the new buckets, giving heads and links that realise the rehashed chains |
| HashMgr.SplitAllAt | HashMgr.cs:424-499 | each line of the file is split independently, as one line is split |
| HashSpec.RoundsSlice | HashMgr.cs:523-534 | the hash rounds read only the characters of the slice, so hashing word[i..j] equals hashing the extracted substring |
| HashSpec.FindSpec | HashMgr.cs:29-42 | the specified lookup is the first entry holding the word, and none exactly when no entry holds it |
| HashSpec.InItsBucket | HashMgr.cs:191-197 | every entry holding a word sits in the chain of that word's bucket, which is why lookup searches only there |
| HashSpec.ChainWalkable | HashMgr.cs:29-42 | every bucket chain of a consistent table can be walked from its head |
| HashSpec.ChainFind | HashMgr.cs:33-41 | the first chain position holding the word is the first entry holding it in the whole table; a chain without the word means no entry holds it |
| HashUpdate.FindLast | HashMgr.cs:199-242 | a word has a first homonym exactly when it has a last one, and the first does not come after the last |
| HashUpdate.LastIsEnd | HashMgr.cs:201 | an entry has no next homonym exactly when it is the last entry holding its word |
| HashUpdate.AppendConsistent | HashMgr.cs:191-248 | appending an entry at its bucket's tail and linking the old last homonym to it keeps buckets, chains and homonym links consistent |
| HashUpdate.AddedFinds | HashMgr.cs:191-248 | after a visible addition the word is found: at its old first homonym, or at the new entry when it was absent |
| HashUpdate.AddedHidden | HashMgr.cs:234-247 | a hidden capitalised form is appended only when no entry holds its word |
| HashUpdate.AddedHomonym | HashMgr.cs:201-215 | adding a present word either gives its flags to a last homonym carrying ONLYUPCASE, keeping every word and hash, or becomes the new last homonym |
| HashUpdate.AddedKeeps | HashMgr.cs:63-249 | an addition never loses a word |
| HashUpdate.MarkedForbids | HashMgr.cs:288-305 | after Remove each homonym tests positive for FORBIDDENWORD, with its old flags kept and sorted; other entries and every word and hash are unchanged |
| HashUpdate.UnmarkedAllows | HashMgr.cs:308-319 | after remove_forbidden_flag no homonym tests positive for FORBIDDENWORD; other entries are unchanged |
| HashUpdate.MarkedIdempotent | HashMgr.cs:288-305 | removing a word twice is removing it once |
| HashUpdate.UnmarkMarked | HashMgr.cs:288-319 | re-adding a removed word leaves each of its homonyms without flags |
| HashUpdate.HiddenFlags | HashMgr.cs:267-276 | the hidden form's flag array is the flags with ONLYUPCASE spliced in where the binary search puts it |
| HashUpdate.WithOnlyUpcaseInsert | HashMgr.cs:267-276 | on sorted flags the splice is the ordered insertion of ONLYUPCASE, or nothing when it is present |
| HashUpdate.WithOnlyUpcaseSorted | HashMgr.cs:267-276 | on sorted flags the hidden form's flags hold ONLYUPCASE and stay sorted |
| HashResize.WalkCoversOnce | HashMgr.cs:381-386 | in a consistent table the walk over all chains visits every entry exactly once |
| HashResize.RehashedConsistent | HashMgr.cs:549-571 | heads and links realising the rehashed chains make a consistent table with the same entries, each in its new bucket |
| HashResize.SelectOrdered | HashMgr.cs:562-570 | rehashing keeps the relative order of same-word entries, so homonym links stay valid |
| HashResize.ConcatDistinct | HashMgr.cs:552-560 | the concatenation of disjoint chains holds no entry twice |
| HashLists.MoveHeadKeeps | HashMgr.cs:555-559 | re-linking the head of one list to the front of another realises the lists after the move, which stay disjoint |
| HashLists.AppendKeeps | HashMgr.cs:244-247 | linking a fresh entry after a list's tail realises the list with the entry appended |
| HashMgr.HashTable.AddReps | HashMgr.cs:112-188 | the `ph:` loop appends to reptable exactly the entries of the data's blank-separated pieces in order, and nothing when the data lacks "ph:" |
| HashMgr.HashTable.AddField | HashMgr.cs:124-186 | one `ph:` field with a non-empty value appends exactly its entries |
| HashMgr.HashTable.SplitField | HashMgr.cs:132-155 | the "->" test and the '*' rule give the field's pattern and replacement |
| HashMgr.HashTable.AddPattern | HashMgr.cs:160-186 | the capitalised and lower-cased entries are appended for an INITCAP word and a NOCAP pattern, the latter only for German and Hungarian, then always the pattern itself |
| PhReps.SplitBlanks | HashMgr.cs:121 | Split(' ', '\t') gives at least one piece |
| PhReps.SplitSolid | HashMgr.cs:121 | a text without blanks is a single piece |
| PhReps.SplitFirst | HashMgr.cs:121 | a blank-free piece before a blank is split off first, the rest split on |
| PhReps.Arrow | HashMgr.cs:132-137 | the "->" test keeps a non-empty pattern non-empty and never lengthens it |
| PhReps.Star | HashMgr.cs:144-155 | the '*' rule keeps the pattern non-empty |
| PhReps.FieldPattern | HashMgr.cs:132-155 | the pattern of a non-empty value is non-empty |
| PhReps.PiecesAppend | HashMgr.cs:121-188 | the entries of two runs of pieces are those of the first followed by those of the second |
| PhReps.PatternsNonEmpty | HashMgr.cs:125-186 | every REP entry the `ph:` fields add has a non-empty pattern |
| PhReps.PatternCases | HashMgr.cs:160-186 | a pattern adds itself alone unless the word is INITCAP and the pattern NOCAP; then the lower-cased entry (German and Hungarian), the capitalised pattern and the pattern, in that order |
| PhReps.PlainPattern | HashMgr.cs:132-155 | a value without "->" and without a final '*' is its own pattern, the dictionary word its replacement |
| PhReps.PlainField | HashMgr.cs:124-186 | "ph:p" on a word makes p suggest the word; on an INITCAP word with a NOCAP p, the capitalised p also suggests it |
| PhReps.ArrowAt | HashMgr.cs:132 | the first "->" of a + "->" + b is the one after a when a holds none |
| PhReps.ArrowPattern | HashMgr.cs:132-135 | "a->b" has the pattern a and the replacement b |
| PhReps.ArrowField | HashMgr.cs:129-135 | "ph:a->b" makes a suggest b whatever the dictionary word |
| PhReps.StarExample | HashMgr.cs:138-155 | "ph:prity*" on "pretty" gives the single entry "prit" -> "prett", as add_word's comment describes |
| PhReps.OneField | HashMgr.cs:112-188 | a description that is one `ph:` field adds exactly that field's entries |
| PhReps.TwoFields | HashMgr.cs:112-188 | two `ph:` fields separated by a space add the first field's entries, then the second's |
| PhReps.CommentExample | HashMgr.cs:129-131 | "ph:prity ph:priti->pretti" on "pretty" gives prity -> pretty and priti -> pretti, as add_word's comment describes |
| DicLines.Wrap32 | HashMgr.cs:402 | an unchecked C# int result is always a 32-bit value, and a value already in range is unchanged |
| DicLines.Wrap32Congruent | HashMgr.cs:402 | the wrapped value is the 32-bit value congruent to the exact one modulo 2^32 |
| DicLines.Expected | HashMgr.cs:398-400 | the expected word count is a 32-bit value, and 0 when the first line has no field |
| DicLines.TablePlanSound | HashMgr.cs:398-417 | a word count that is not positive is refused; an allocated or regrown size is odd, at least the count plus the room already there, and a valid array length; the table is kept only when not crowded |
| DicLines.TablePlanAgrees | HashMgr.cs:401-417 | wherever the int sum does not wrap, the corrected sizing agrees with the sizing as written |
| DicLines.PlanWrapsNegative | HashMgr.cs:401-405 | as written, a word count of int.MaxValue wraps the table size negative and passes the guard |
| DicLines.RunStart | HashMgr.cs:435-436 | walking back over blanks stops right after a non-blank, with only blanks between there and the start point |
| DicLines.ColonField | HashMgr.cs:430-447 | the `:` loop finds no field, or a description start within the line |
| DicLines.MorphStart | HashMgr.cs:429-454 | the description starts within the line, after at least one character, or there is none |
| DicLines.NoColonField | HashMgr.cs:432 | a line without blanks has no `:` field |
| DicLines.ColonAfterTab | HashMgr.cs:449-454 | with no blank before the first tab, a `:` field cannot start before it, so the tab decides |
| DicLines.BodyComposed | HashMgr.cs:449-461 | for a part without blanks followed by a tab, the description is exactly what follows the tab |
| DicLines.SplitCompose | HashMgr.cs:429-499 | splitting a line composed of a plain word, its flags and its description gives back exactly those three parts |
| DicLines.SplitLeadingSlash | HashMgr.cs:466-479 | with the corrected search a leading `/` stays a word character and the next `/` separates the flags |
| DicLines.LeadingSlashAsWritten | HashMgr.cs:466-479 | as written, "/abc/XY" splits into the word "/" and the flag text "bc/XY" |
| DicLines.BackOverBlanks | HashMgr.cs:435-436 | the backwards for loop stops at the start of the blank run, as RunStart specifies |
| DicLines.FindColonField | HashMgr.cs:429-447 | the `:` while loop computes the specified description start |
| DicLines.FindSlash | HashMgr.cs:466-479 | corrected (a leading `/` is a word character and the search resumes after it, Findings row HashMgr.cs:466-479): the `/` loop unescapes `\/` and stops at the specified separator |
| DicLines.SplitDicLine | HashMgr.cs:429-499 | corrected (a leading `/` is a word character and the search resumes after it, Findings row HashMgr.cs:466-479): one dictionary line split into word, flag text and description as the specified split |
| ByteView.IndexIn | Bytes.cs:40 | Array.IndexOf over a range finds the byte at a position within the range, with no earlier occurrence in it, or reports -1 when the range has none |
| ByteView.IndexOfByte | Bytes.cs:52 | the search loop computes the specified first occurrence in the range |
| ByteView.ContainsPastView | Bytes.cs:37-48 | as written, the view "ab" of "abc" is said to contain "bc", though no match lies inside the view |
| ByteView.SkipBlanks | Bytes.cs:101-106 | skipping blanks stops at the first non-blank or the end; SkippedAreBlank: everything passed over is a space or tab |
| ByteView.SkippedAreBlank | Bytes.cs:101-106 | every byte the first loop of Split passes over is a blank |
| ByteView.RunEnd | Bytes.cs:108-112 | a field's run ends at the first blank or the end |
| ByteView.RunIsSolid | Bytes.cs:108-112 | every byte inside a field's run is a non-blank |
| ByteView.NextCut | Bytes.cs:99-115 | a round of Split gives either no field or a non-empty field at or after the position, resuming one byte past its end |
| ByteView.FieldsAreRuns | Bytes.cs:97-117 | each field of Split is a maximal run of non-blank bytes |
| ByteView.FieldsInOrder | Bytes.cs:97-117 | the fields come left to right, each ending before the next starts |
| ByteView.FieldsCover | Bytes.cs:97-117 | every non-blank byte lies in some field |
| ByteView.Spliced | Bytes.cs:75-79 | after the tail moves left over the gap, the view holds the old view with the gap cut out |
| ByteView.ShiftLeft | Bytes.cs:78 | the Array.Copy moves the n bytes after the gap left by count and leaves the rest of the array as it was |
| ByteView.Window | Bytes.cs:67-68 | a view of a view is the view of the shared array at the summed offset |
| ByteView.Bytes.constructor | Bytes.cs:13-18 | the view holds the array, offset and length given |
| ByteView.Bytes.Whole | Bytes.cs:20-25 | new Bytes(data) views the whole array |
| ByteView.Bytes.At | Bytes.cs:27 | this[i] is the i-th byte of the view |
| ByteView.Bytes.Equals | Bytes.cs:29-35 | the view equals a string exactly when the lengths agree and each byte is the low byte of its character |
| ByteView.Bytes.Contains | Bytes.cs:37-48 | corrected (Findings row Bytes.cs:37-48): with the candidates kept inside the view, Contains holds exactly when the string occurs at a position where it fits in the view |
| ByteView.Bytes.IndexOf | Bytes.cs:50-54 | the first position of the character's byte in the view, or -1 when none is there |
| ByteView.Bytes.IndexOfFrom | Bytes.cs:56-60 | the first such position at or after start, or -1 |
| ByteView.Bytes.Substring | Bytes.cs:67 | a new view over the same array holding the bytes from start on |
| ByteView.Bytes.SubstringCount | Bytes.cs:68 | a new view over the same array holding count bytes from start |
| ByteView.Bytes.Remove | Bytes.cs:70-73 | the view is cut to its first start bytes, over the same array |
| ByteView.Bytes.RemoveCount | Bytes.cs:75-79 | the view loses count bytes at start; the tail is shifted left in the shared array, whose bytes outside the view are unchanged except the stale copy after the new end |
| ByteView.Bytes.ExpandToEndOf | Bytes.cs:81-84 | a new view from this view's start to the end of the line, over the same array |
| ByteView.Bytes.IndexIn | Bytes.cs:86-89 | where this view starts within another view of the same array: the other view's bytes there are this view's bytes |
| ByteView.Bytes.SkipFrom | Bytes.cs:101-106 | the first loop of a round of Split computes the specified blank skip |
| ByteView.Bytes.RunFrom | Bytes.cs:108-112 | the second loop computes the specified end of the run |
| ByteView.Bytes.NextField | Bytes.cs:99-114 | one round of Split yields exactly the specified next field |
| ByteView.Bytes.SplitRound | Bytes.cs:99-115 | one round either stops with every field yielded, or moves forward one field |
| ByteView.Bytes.Split | Bytes.cs:97-117 | Split yields the fields of the view as spans of the shared array, in order |
| ListUtils.UniqElements | Utils.cs:183-201 | de-duplication keeps exactly the elements of the list, each once |
| ListUtils.UniqOrdered | Utils.cs:183-201 | de-duplication lists the elements in the order of their first occurrences |
| ListUtils.UniqDistinct | Utils.cs:183-201 | a list without repetitions is left as it is |
| ListUtils.UniqShorter | Utils.cs:183-201 | de-duplication keeps the length exactly when no element repeats |
| ListUtils.UniqDrops | Utils.cs:183-201 | a repeated element makes the result strictly shorter |
| ListUtils.IndexInPrefix | Utils.cs:190 | `IndexOf(x, 0, j)` is negative exactly when x is not among the first j elements, and otherwise points at an x there |
| ListUtils.UniqInPlace | Utils.cs:183-201 | uniqlist compacts the list in place: its first n elements are the de-duplicated list, which is then all that is kept |
| ListUtils.CharPos | Utils.cs:113 | the first position of a character in a text, or -1 exactly when it does not occur |
| ListUtils.PiecesOfJoin | Utils.cs:113 | splitting lines joined by a separator that none of them contains gives the lines back |
| ListUtils.LineUniq | Utils.cs:111-127 | line_uniq gives text whose lines are the input's lines de-duplicated in first-seen order; "" when there are no lines; the text itself when no line repeats; otherwise the kept lines joined by the record separator |
| ListUtils.LineUniqApp | Utils.cs:130-146 | as written: text without a record separator is returned as is; otherwise no lines give "", one line gives that line, and several give every line, repeats included, as alternatives between " ( " and " ) " separated by bars |
| ListUtils.LineUniqAppRepeats | Utils.cs:129-146 | as written, "1\n2\n1" becomes the three alternatives 1, 2 and 1, listing the line 1 twice |
| ListUtils.LineUniqAppCorrected | Utils.cs:129-146 | corrected: the alternatives are the lines de-duplicated, as the comment of line_uniq_app describes |
| ListUtils.LineUniqAppCorrectedOnce | Utils.cs:129 | corrected, "1\n2\n1" gives the two alternatives 1 and 2, as the comment shows |
| ListUtils.CorrectedAlternativesDistinct | Utils.cs:129-146 | corrected, the alternatives are exactly the distinct lines of the text, each once |
| ListUtils.FieldEnd | Utils.cs:151-155 | the first stop character (space, tab, newline) at or after start, or the end, with no stop character before it |
| ListUtils.FieldLen | Utils.cs:151-155 | fieldlen is the length of the run of non-stop characters from start, which ends at a stop character or the end |
| ListUtils.CopyField | Utils.cs:157-168 | copy_field gives a field exactly when the text is present and the tag occurs at or after pos; the field follows the first such tag, holds no stop character and ends at one or at the end |
| ListUtils.CopyFieldTo | Utils.cs:170-181 | the builder overload appends exactly that field, or nothing |
| ListUtils.ParseInt | Utils.cs:21-24 | int.TryParse accepts only values that fit in 32 bits |
| ListUtils.Atoi | Utils.cs:21-24 | atoi always gives a 32-bit value, and 0 for text that does not parse |
| ListUtils.AsciiText | Utils.cs:30 | ASCII decoding keeps bytes below 0x80 and turns the others into '?' |
| ListUtils.AtoiBytes | Utils.cs:26-36 | atoi(Bytes) is atoi of the ASCII text, 0 when the parse fails |
| ListUtils.Decimal | Utils.cs:21-24 | a non-negative int in decimal is a non-empty string of digits |
| ListUtils.AtoiDecimal | Utils.cs:21-24 | atoi reads back every non-negative int from its decimal text |
| ListUtils.AtoiNegative | Utils.cs:21-24 | atoi reads back every negative int down to int.MinValue from a minus sign and its digits |
| ListUtils.AtoiNotNumber | Utils.cs:21-24 | text without any digit reads as 0 |
| Flags.TestAff | Utils.cs:225-244 | TESTAFF answers the specified probe; a positive answer is always a real membership, and on a sorted flag array the answer is exact; a null array holds nothing |
| Flags.ProbeSound | Utils.cs:225-244 | whatever the order of the array, both the backwards scan and the binary search answer true only for a flag that is there |
| Flags.ProbeExact | Utils.cs:225-244 | on a sorted array TESTAFF finds every flag that is there |
| Flags.InsertElements | HashMgr.cs:267-276 | inserting a flag in order adds one element and nothing but that flag |
| Flags.InsertMultiset | HashMgr.cs:267-276 | the ordered insertion adds exactly the one flag to the multiset |
| Flags.InsertKeepsSorted | HashMgr.cs:267-276 | the ordered insertion keeps a sorted array sorted |
| Flags.SortFlagsCorrect | Utils.cs:208 | the sort specification is sorted and a permutation of its input |
| Flags.SortInPlace | HashMgr.cs:300 | Array.Sort leaves the flag array sorted and a permutation of what it held |
| Flags.SortRemoveDuplicates | Utils.cs:203-223 | the result is strictly ascending, holds exactly the flags of the input, and is the very same array when it had at most one flag |
| Flags.SortDedup | Utils.cs:203-223 | sorting then dropping repeats gives the input's flags, each once, strictly ascending |
| Flags.Compact | Utils.cs:209-221 | the compaction pass moves the distinct flags of a sorted array to its front and counts them |
| Flags.BinarySearch | HashMgr.cs:267 | Array.BinarySearch returns the index of an element equal to the flag, or the complement of a position within the array's bounds |
| Flags.BinarySearchSorted | HashMgr.cs:267-276 | on a sorted array the search finds the flag exactly when it is there, and otherwise its complement is the place where inserting the flag keeps the array sorted |
| Flags.InsertSplit | HashMgr.cs:270-275 | splicing the flag in between the smaller and the larger-or-equal flags is the ordered insertion |
| Heap.ChildrenOf | Utils.cs:246-264 | the nodes whose parent is i are exactly 2i+1 and 2i+2 |
| Heap.Zip | Utils.cs:246-264 | keys and values pair up position by position |
| Heap.MoveUp | Utils.cs:253-255 | moving the smaller child up into the hole moves the hole down to that child, keeping the heap around it |
| Heap.Place | Utils.cs:262-263 | putting the key into the hole once no child is smaller completes the heap |
| Heap.MoveKeepsPairs | Utils.cs:253-255 | moving a key and its value together keeps the multiset of pairs |
| Heap.SiftStep | Utils.cs:251-261 | one round of the do-while loop moves the hole strictly down and keeps the sift invariant |
| Heap.Heapify | Utils.cs:246-264 | when the heap holds below the root, Heapify restores it everywhere and keeps the same key-value pairs |
| FlagCodec.Wrap16 | AffixMgr.cs:3495 | the (ushort) cast keeps values in 0..65535 and is congruent to its argument modulo 2^16 |
| FlagCodec.NumFlagAsWritten | AffixMgr.cs:3488-3495 | as written, the NUM check of decode_flag agrees with the corrected check on every non-negative number |
| FlagCodec.NumFlag | AffixMgr.cs:3550-3557 | the NUM check of the array overload always gives a flag below DEFAULTFLAGS, and warns exactly when it had to replace the number |
| FlagCodec.NegativeFlagAliases | AffixMgr.cs:3488-3495 | as written, "-65000" decodes without warning to the ordinary flag 536; the corrected check reports it and gives 0 |
| FlagCodec.ZeroCheck | AffixMgr.cs:3508 | the ZeroFlag warning is added exactly when the flag is 0, and the flag is untouched |
| FlagCodec.DecodeFlag | AffixMgr.cs:3478-3510 | corrected (a negative NUM flag is reported and zeroed like one too large, Findings row AffixMgr.cs:3488-3495): decode_flag warns about 0 exactly when the flag is 0; in NUM mode the flag is below DEFAULTFLAGS; the other modes raise no other warning |
| FlagCodec.Units | AffixMgr.cs:3671-3680 | the code units of a Basic Multilingual Plane string are its characters' values |
| FlagCodec.NullText | AffixMgr.cs:3674 | the text for the flag 0 is the six ASCII characters "(NULL)" |
| FlagCodec.EncodeFlag | AffixMgr.cs:3671-3680 | encode_flag always writes something, and in LONG and NUM mode, or for 0, only code units below 0x100 |
| FlagCodec.AsciiDigits | AffixMgr.cs:3678 | decimal digits written as bytes read back as the same ASCII text |
| FlagCodec.LongRoundTrip | AffixMgr.cs:3484-3486 | in LONG mode decode_flag reads back every nonzero flag from the two bytes encode_flag writes |
| FlagCodec.NumRoundTrip | AffixMgr.cs:3488-3495 | in NUM mode decode_flag reads back every flag below DEFAULTFLAGS from its decimal number |
| FlagCodec.CharRoundTrip | AffixMgr.cs:3503-3506 | in the default mode decode_flag reads back every nonzero flag below 0x100 from its byte |
| FlagCodec.FlagsOf | AffixMgr.cs:3512-3592 | the flag vector is the flags of the decoded items, position by position |
| FlagCodec.WarningsOfHas | AffixMgr.cs:3512-3592 | a warning is raised for a vector exactly when it is raised for one of its flags |
| FlagCodec.LongItem | AffixMgr.cs:3526-3534 | one LONG flag is high byte then low byte; a value from DEFAULTFLAGS up is reported and zeroed, and only then is there a warning |
| FlagCodec.LongItems | AffixMgr.cs:3521-3537 | the LONG items are the byte pairs, an odd last byte left out |
| FlagCodec.Split | AffixMgr.cs:3543-3571 | the comma-separated fields end with the field left open after the last comma |
| FlagCodec.ScanCount | AffixMgr.cs:3543 | every comma closes exactly one field, so there is one flag more than commas |
| FlagCodec.NumItem | AffixMgr.cs:3550-3559 | one NUM field decodes to a flag below DEFAULTFLAGS, with a ZeroFlag warning exactly when it is 0 |
| FlagCodec.Widen | AffixMgr.cs:3585-3586 | the default mode takes each byte as a flag |
| FlagCodec.DecodeFlagsCases | AffixMgr.cs:3512-3592 | on non-empty input decode_flags gives the LONG and the NUM vector as specified |
| FlagCodec.LongShape | AffixMgr.cs:3519-3538 | a LONG vector has half as many flags as bytes, all below DEFAULTFLAGS, and BadFlagvector exactly when the length is odd |
| FlagCodec.NumShape | AffixMgr.cs:3540-3573 | a NUM vector has one flag more than commas, all below DEFAULTFLAGS, with a ZeroFlag warning exactly when a flag is 0 |
| FlagCodec.LongText | AffixMgr.cs:3676 | the LONG text of a flag vector has two bytes per flag |
| FlagCodec.LongVectorRoundTrip | AffixMgr.cs:3519-3538 | decode_flags in LONG mode reads back every vector of ordinary flags from its bytes, without a warning |
| FlagCodec.QuietPairs | AffixMgr.cs:3524-3537 | byte pairs that spell ordinary flags decode to those flags without a warning |
| FlagCodec.NumText | AffixMgr.cs:3678 | the NUM text of a flag vector is never empty |
| FlagCodec.SplitNumText | AffixMgr.cs:3543-3571 | the fields of a NUM text are exactly the decimal numbers of its flags |
| FlagCodec.QuietFields | AffixMgr.cs:3546-3571 | decimal fields of ordinary flags decode to those flags without a warning |
| FlagCodec.NumVectorRoundTrip | AffixMgr.cs:3540-3573 | decode_flags in NUM mode reads back every vector of ordinary flags from its comma-separated decimal text |
| FlagCodec.DecodeLongArray | AffixMgr.cs:3519-3538 | the LONG loop fills a fresh array with the specified LONG vector and its warnings |
| FlagCodec.DecodeNumArray | AffixMgr.cs:3540-3573 | the NUM loop fills a fresh array with the specified NUM vector and its warnings |
| FlagCodec.NumFinish | AffixMgr.cs:3562-3571 | after the loop the open field gives the last flag, completing the NUM vector |
| FlagCodec.CopyFlags | AffixMgr.cs:3575-3588 | the UNI and default loops copy the flags into a fresh array unchanged |
| FlagCodec.DecodeFlagsArray | AffixMgr.cs:3512-3592 | decode_flags gives null exactly for empty input, with no warning, and otherwise a fresh array holding the specified vector |
| FlagCodec.FlagList.constructor | AffixMgr.cs:3594 | a new result list is empty |
| FlagCodec.DecodeFlagsInto | AffixMgr.cs:3594-3669 | corrected (its NUM entries reject negative numbers as the array overload does, while the List overload as written at AffixMgr.cs:3630 and 3642 checks only the upper bound; Findings row AffixMgr.cs:3488-3495): the List overload answers false, appending nothing, exactly for empty input; otherwise it appends the specified vector to the list, keeping what was there |
| AffixEntry.SfxAdd | SfxEntry.cs:17-31 | add applies exactly to words longer than strip (or empty under FULLSTRIP), with at least numconds characters, meeting the condition and ending with strip; the result ends with the suffix, and removing it and putting strip back gives the word |
| AffixEntry.SfxStem | SfxEntry.cs:155-172 | the candidate stem is the word without the suffix's length, then strip |
| AffixEntry.SfxCheckWordSpec | SfxEntry.cs:131-216 | an accepted homonym comes from an entry allowed in the cross product, from a stem that is long enough and meets the condition, and passes the flag tests of checkword |
| AffixEntry.SfxCheckWord | SfxEntry.cs:131-216 | checkword only returns a homonym of a stem long enough for the entry; on sorted flag arrays it returns exactly the first homonym the specification accepts |
| AffixEntry.SfxBuildStem | SfxEntry.cs:166-172 | the stem buffer holds the specified stem |
| AffixEntry.SfxHomonymSearch | SfxEntry.cs:187-211 | the do-while loop returns a homonym of the chain, and on sorted flags the first one passing the flag test |
| AffixEntry.HomonymTest | SfxEntry.cs:192-208 | the TESTAFF-based test of one homonym agrees with the flag condition on sorted flag arrays |
| AffixEntry.SfxRoundTrip | SfxEntry.cs:17-31 | when the word ends with the suffix and checkword accepts a stem that keeps a character or strips nothing, add on that stem gives the word back |
| AffixEntry.SfxFullStripNotInverse | SfxEntry.cs:159-172 | under FULLSTRIP checkword may rebuild a stem from strip alone that add then refuses, so the round trip needs a non-empty remainder |
| AffixEntry.NextHomonymAgrees | SfxEntry.cs:356-382 | with a governing prefix and no bad flag, get_next_homonym tests what checkword tests |
| AffixEntry.NextHomonymSpec | SfxEntry.cs:356-382 | the next homonym after i passing the test, with none passing in between, or -1 when none is left |
| AffixEntry.GetNextHomonym | SfxEntry.cs:356-382 | get_next_homonym returns a later homonym or null, and on sorted flags exactly the specified one |
| AffixEntry.SfxKey | SfxEntry.cs:404-407 | the suffix index key is the reversed affix: same length, and reversing it gives the affix |
| AffixEntry.PfxAdd | PfxEntry.cs:15-27 | add applies exactly to words longer than strip (or empty under FULLSTRIP), with at least numconds characters, meeting the condition and starting with strip; the result starts with the prefix, and strip followed by the rest gives the word |
| AffixEntry.PfxStem | PfxEntry.cs:130-138 | the candidate stem is strip, then the word after the prefix |
| AffixEntry.PfxDirectSpec | PfxEntry.cs:130-161 | an accepted homonym comes from a long-enough stem meeting the condition, carries the prefix flag and the needed flag, and the prefix does not carry NEEDAFFIX |
| AffixEntry.PfxCheckDirect | PfxEntry.cs:130-161 | the first half of checkword matches exactly when the stem is long enough and meets the condition; it returns only homonyms of that stem, and on sorted flags exactly the specified first one |
| AffixEntry.PfxBuildStem | PfxEntry.cs:136-138 | the stem buffer holds the specified stem |
| AffixEntry.PfxHomonymSearch | PfxEntry.cs:150-160 | the do-while loop returns a homonym of the chain, and on sorted flags the first one passing the flag test |
| AffixEntry.PfxRoundTrip | PfxEntry.cs:15-27 | when the word starts with the prefix and checkword accepts a stem of at least numconds characters, add on that stem gives the word back |
| AffixEntry.PfxShortStemNotInverse | PfxEntry.cs:130-148 | checkword does not check the stem against numconds: "una" is accepted through the stem "a" that add then refuses |
| Conditions.SkipToClose | PfxEntry.cs:94 | skipping the rest of a matched group stops at its `]`, or at the end, with no `]` in between |
| Conditions.ScanToClose | PfxEntry.cs:94 | the inner while loop computes the specified skip |
| Conditions.ParseFrom | PfxEntry.cs:29-114 | a well-formed non-empty pattern parses into at least one atom |
| Conditions.PfxTest | PfxEntry.cs:29-114 | test_condition accepts everything without conditions, and on a well-formed pattern answers the forward reading of its atoms |
| Conditions.PrefixTestCondition | PfxEntry.cs:29-114 | the prefix state machine computes the specified answer: always true without conditions, the forward atom reading on a well-formed pattern |
| Conditions.PfxRunLong | PfxEntry.cs:29-114 | for a stem at least as long as the pattern, atom k must accept character k |
| Conditions.SfxTest | SfxEntry.cs:33-129 | test_condition accepts everything without conditions, and on a well-formed pattern of at most numconds atoms answers the backward reading of its atoms against the word's end |
| Conditions.SuffixTestCondition | SfxEntry.cs:33-129 | the suffix state machine computes the specified answer |
| Conditions.PrefixLoopIsRun | PfxEntry.cs:29-114 | on a well-formed pattern the prefix machine is the forward atom reading |
| Conditions.SuffixLoopIsHolds | SfxEntry.cs:33-129 | on a well-formed pattern the suffix machine is the backward atom reading |
| Conditions.PfxBoundary | PfxEntry.cs:36-112 | at every atom boundary the prefix machine computes the reading of the remaining atoms |
| Conditions.SfxBoundary | SfxEntry.cs:40-127 | at every atom boundary the suffix machine checks the remaining atoms backwards from the current character |
| Conditions.CondLen | AffixMgr.cs:827-842 | condlen counts a group as one atom and every other character outside a group as one; on a well-formed pattern it is the number of atoms |
| Conditions.CountAtoms | AffixMgr.cs:827-842 | the character count of condlen equals the number of parsed atoms |
| Conditions.CountGroupAtom | AffixMgr.cs:832-836 | a bracket group counts as one atom however many characters it lists |
| Conditions.EncodeIt | AffixMgr.cs:844-853 | the pattern "." alone means no condition; any other pattern is kept with its atom count truncated to a byte, which is the atom count below 256 |
| Ordinal.LexLeTotal | AffixMgr.cs:594 | the ordinal comparison orders any two keys |
| Ordinal.LexLeTrans | AffixMgr.cs:594 | the ordinal comparison is transitive |
| Ordinal.LexLeAntisym | AffixMgr.cs:594 | two keys each ordinally at most the other are equal |
| Ordinal.PrefixLexLe | AffixMgr.cs:594 | a prefix comes ordinally first |
| Ordinal.BetweenExtends | AffixMgr.cs:713-763 | every key ordinally between a key and one of its extensions extends it too, which is why the runs of process_pfx_order are contiguous |
| Ordinal.PrefixesNest | AffixMgr.cs:918 | two prefixes of one word are prefixes of each other one way or the other |
| Ordinal.SubsetIsPrefix | AffixMgr.cs:855-860 | for a key without dots, being a leading subset is being a prefix |
| Ordinal.IsSubset | AffixMgr.cs:855-875 | isSubset holds exactly when the key, dots matching anything, is a leading subset of the word from start; past the word's end only the empty key is |
| Ordinal.Backward | AffixMgr.cs:2624-2635 | the characters read backward from end_of_s2, last first |
| Ordinal.IsRevSubset | AffixMgr.cs:2624-2655 | isRevSubset holds exactly when the key is a leading subset of the word read backward for len characters |
| SubsetWalk.RunFrom | AffixMgr.cs:730-734 | the inner loop stops at the first later key the current one is not a leading subset of, every key in between extending it |
| SubsetWalk.RunEnd | AffixMgr.cs:729-735 | nextNE is set to the end of the run of keys extending the current key |
| SubsetWalk.NEPos | AffixMgr.cs:735 | nextNE always leads strictly forward |
| SubsetWalk.EQPos | AffixMgr.cs:736-739 | nextEQ is the next entry exactly when the current key is a leading subset of it, and null otherwise |
| SubsetWalk.WalkSound | AffixMgr.cs:913-943 | the pruned search of prefix_check reports only keys that fit the word, each once, in chain order |
| SubsetWalk.MatchesExact | AffixMgr.cs:913-943 | a plain scan of the chain accepts exactly the fitting keys in order |
| SubsetWalk.SubsetTrans | AffixMgr.cs:855-860 | leading-subset extension is transitive, dots included |
| SubsetWalk.WalkComplete | AffixMgr.cs:713-763 | on a sorted chain of dot-free keys, from a properly reached position, the pruned search visits exactly what the plain scan accepts |
| SubsetWalk.WalkFindsAll | AffixMgr.cs:913-943 | from the head of a sorted chain of dot-free keys the pruned search misses no fitting key |
| SubsetWalk.DottedKeysMissed | AffixMgr.cs:742-760 | with dots the pruning is incomplete: in the chain "a.c", "ab", "abc" all three keys fit "abc", but the search stops after the first |
| AffixTree.KeysAt | AffixMgr.cs:589-607 | the keys of a chain's entries, in chain order |
| AffixTree.InsertPos | AffixMgr.cs:589-607 | the tree insertion places a new key before the first key it is ordinally at most, after all the smaller ones |
| AffixTree.Bucket | AffixMgr.cs:580-607 | the list for a first character holds exactly the entries whose key starts with that character |
| AffixTree.BucketSorted | AffixMgr.cs:589-607 | each list is in nondecreasing ordinal order and names each entry once |
| AffixTree.InOrderAttach | AffixMgr.cs:594-606 | hanging a new leaf under a node on the nextEQ or nextNE side splices it next to that node in every in-order list |
| AffixTree.NewestFirst | AffixMgr.cs:563-573 | the lists built by pushing on a head hold the picked entries, newest first |
| AffixIndex.KeyOf | SfxEntry.cs:404-407 | an entry is indexed by its affix, reversed for a suffix, of the same length |
| AffixIndex.ZeroList | AffixMgr.cs:567-573 | the empty-key list holds exactly the entries whose key is empty |
| AffixIndex.FlagList | AffixMgr.cs:562-565 | the flag list of a byte holds exactly the entries whose flag has that low byte |
| AffixIndex.BasePush | AffixMgr.cs:559-573 | indexing a new entry pushes it on its flag list and, for an empty key, on the empty-key list, keeping both lists exact |
| AffixIndex.TreesAttach | AffixMgr.cs:589-607 | hanging the new entry under the node the walk found puts it at its ordinal insertion position, so every tree stays a sorted tree of its first character's entries |
| AffixIndex.FindParent | AffixMgr.cs:591-607 | the insertion walk ends at a node whose link on the chosen side is null, at the position where the new key keeps the in-order list sorted |
| AffixIndex.TreeInsert | AffixMgr.cs:576-607 | an empty key leaves the trees alone, the first key of a character becomes a root, and any other key is attached as a leaf; the trees stay sorted and cover every entry |
| AffixIndex.IndexEntry | AffixMgr.cs:552-608 | build_pfxtree on the table's values indexes the entry by flag, by empty key or in its tree, keeping every list and tree exact |
| AffixIndex.ListAll | AffixMgr.cs:676-698 | process_*_tree_to_list threads the next links of each tree into its chain in sorted order and leaves the empty-key list's links alone |
| AffixIndex.OrderAll | AffixMgr.cs:713-818 | process_*_order gives every chain the subset links of the pruned search |
| AffixIndex.AffixTable.Snapshot | AffixMgr.cs:713-818 | after process_*_order the table is well formed: an exact empty-key list, sorted chains, and subset links on each |
| AffixIndex.AffixTable.constructor | AffixMgr.cs:552-565 | a new index is empty: no entries, no trees, an empty head for every flag byte |
| AffixIndex.AffixTable.Add | AffixMgr.cs:552-674 | build_pfxtree / build_sfxtree appends the entry and its key and indexes it by flag and by key as specified, keeping the trees sorted and exact |
| AffixIndex.AffixTable.TreeToList | AffixMgr.cs:676-698 | each tree is flattened into its sorted chain; entries, keys, tree links and flag lists are unchanged |
| AffixIndex.AffixTable.ProcessOrder | AffixMgr.cs:713-818 | every chain gets the nextEQ / nextNE links of the pruned search; the chains and everything else are unchanged |
| AffixLinks.InOrderLink | AffixMgr.cs:682-691 | process_*_in_order threads the next links so the list from the returned head visits the tree in order and then continues into what followed; nodes outside the tree keep their links |
| AffixLinks.RunEndLink | AffixMgr.cs:729-734 | the inner loop of the first pass finds the first later entry whose key does not extend the current one |
| AffixLinks.RunLastLink | AffixMgr.cs:750-757 | the inner loop of the cleanup pass finds the last entry of the run extending the current key, or null for an empty run |
| AffixLinks.CleanedByAll | AffixMgr.cs:747-760 | after the cleanup loop has passed every entry, an entry is cleaned exactly when it ends some earlier entry's run |
| AffixLinks.FirstPass | AffixMgr.cs:727-740 | the first loop sets nextNE to the end of each entry's run and nextEQ to the next entry exactly when that one extends it; entries of other chains are untouched |
| AffixLinks.Cleanup | AffixMgr.cs:747-760 | the cleanup loop gives the last entry of each non-empty run a null nextNE; entries of other chains are untouched |
| AffixLinks.OrderChain | AffixMgr.cs:713-763 | both passes on one chain leave the links the design comment describes on every entry |
| AffixCheck.PrunedIsScan | AffixMgr.cs:2720-2782 | on a chain of dot-free keys, following nextEQ after a key that fits and nextNE after one that does not tries exactly the entries of the chain whose key fits the word, in chain order |
| AffixCheck.SfxAllowedTest | AffixMgr.cs:2674-2702 | the entry tests of the first loop of suffix_check hold exactly when the compound, circumfix, onlyincompound and needaffix rules allow the suffix |
| AffixCheck.SfxEndTest | AffixMgr.cs:2752-2754 | the extra test of the indexed loop holds exactly when the suffix is not onlyincompound at the end of a compound without a prefix |
| AffixCheck.SfxTry | AffixMgr.cs:2703-2711 | one candidate gives the result of the entry tests followed by SfxEntry.checkword, recording the entry |
| AffixCheck.SfxZero | AffixMgr.cs:2672-2714 | the loop over the zero-length suffixes returns the first candidate, in list order, that the tests and checkword accept |
| AffixCheck.SfxWalk | AffixMgr.cs:2721-2782 | the do-while over the chain of the last character returns the first hit of the pruned search |
| AffixCheck.SfxIndexedSpecNone | AffixMgr.cs:2720-2721 | a word whose last character starts no chain finds nothing in the indexed part |
| AffixCheck.SfxIndexed | AffixMgr.cs:2716-2784 | the general case of suffix_check returns the first hit over the chain of the word's last character |
| AffixCheck.SuffixCheck | AffixMgr.cs:2657-2785 | suffix_check returns what its specification returns: the zero-length suffixes first, nothing for an empty word, then the indexed chain |
| AffixCheck.SfxAtExplained | AffixMgr.cs:2756-2762 | a hit on one entry is the homonym that entry's checkword accepts, with the entry recorded as the suffix and the prefix kept |
| AffixCheck.SuffixHitExplained | AffixMgr.cs:2657-2785 | a root suffix_check returns comes from the suffix it records: that entry's checkword accepts it |
| AffixCheck.SuffixHitFound | AffixMgr.cs:2657-2785 | a root suffix_check returns is a homonym of a stem stored in the dictionary |
| AffixCheck.TwoStem | SfxEntry.cs:229-257 | check_twosfx rebuilds a stem only when the cross-product rule lets the suffix apply, the stem is long enough, and the stem meets the condition; the stem is the word without the suffix, then strip |
| AffixCheck.InnerQuery | SfxEntry.cs:260-274 | corrected (the inner suffix query with the strip included, Findings row SfxEntry.cs:264-273): the inner suffix_check runs over the whole rebuilt stem, under the outer suffix's flag, outside compounds |
| AffixCheck.InnerQueryAsWritten | SfxEntry.cs:264-273 | as written, the inner length passed is that of the stem without strip, so strip is not searched |
| AffixCheck.SfxCheckTwoSfx | SfxEntry.cs:218-280 | corrected (SfxEntry.check_twosfx passes the stem length with its strip, Findings row SfxEntry.cs:264-273): check_twosfx, with the inner length corrected, returns what its specification returns |
| AffixCheck.TwoTry | AffixMgr.cs:2801-2806 | corrected (calls the corrected SfxCheckTwoSfx, Findings row SfxEntry.cs:264-273): one candidate of suffix_check_twosfx is tried only when its flag is a continuation class, and gives check_twosfx's answer |
| AffixCheck.TwoZero | AffixMgr.cs:2799-2807 | corrected (reaches the corrected SfxCheckTwoSfx through TwoTry, Findings row SfxEntry.cs:264-273): the loop over the zero-length suffixes returns the first candidate in list order that check_twosfx accepts |
| AffixCheck.TwoStep | AffixMgr.cs:2816-2837 | corrected (reaches the corrected SfxCheckTwoSfx through TwoTry, Findings row SfxEntry.cs:264-273): one step of the chain walk either returns the first hit from position k or moves strictly forward along the chain without losing a hit |
| AffixCheck.TwoWalk | AffixMgr.cs:2815-2837 | corrected (reaches the corrected SfxCheckTwoSfx through TwoStep, Findings row SfxEntry.cs:264-273): the do-while over the chain of the last character returns the first hit of the pruned search |
| AffixCheck.TwoIndexedSpecNone | AffixMgr.cs:2813-2815 | corrected (stated of the indexed part with the corrected InnerQuery, Findings row SfxEntry.cs:264-273): a word whose last character starts no chain finds nothing in the indexed part |
| AffixCheck.TwoIndexed | AffixMgr.cs:2809-2839 | corrected (reaches the corrected SfxCheckTwoSfx through TwoWalk, Findings row SfxEntry.cs:264-273): the general case of suffix_check_twosfx returns the first hit over the chain of the word's last character |
| AffixCheck.SuffixCheckTwo | AffixMgr.cs:2788-2840 | corrected (SfxEntry.check_twosfx passes the stem length with its strip, Findings row SfxEntry.cs:264-273): suffix_check_twosfx returns what its specification returns |
| AffixCheck.PfxAllowedTest | AffixMgr.cs:893-901 | the entry test of prefix_check holds exactly when the onlyincompound and compoundpermit rules allow the prefix |
| AffixCheck.PfxCheckWord | PfxEntry.cs:116-177 | PfxEntry.checkword returns what its specification returns |
| AffixCheck.PfxTry | AffixMgr.cs:893-910 | one candidate gives the entry test followed by checkword, recording the prefix |
| AffixCheck.PfxZero | AffixMgr.cs:891-911 | the loop over the zero-length prefixes returns the first candidate in list order that is accepted |
| AffixCheck.PfxStep | AffixMgr.cs:916-943 | one step of the chain walk either returns the first hit from position k or moves strictly forward along the chain without losing a hit |
| AffixCheck.PfxWalk | AffixMgr.cs:915-943 | the do-while over the chain of the first character returns the first hit of the pruned search |
| AffixCheck.PfxIndexed | AffixMgr.cs:913-945 | the general case of prefix_check returns the first hit over the chain of the word's first character |
| AffixCheck.PrefixCheck | AffixMgr.cs:877-946 | prefix_check resets the context, then returns what its specification returns, with the prefix recorded on a hit |
| AffixCheck.PfxCheckTwoSfx | PfxEntry.cs:180-231 | corrected (SfxEntry.check_twosfx passes the stem length with its strip, Findings row SfxEntry.cs:264-273): PfxEntry.check_twosfx returns what its specification returns |
| AffixCheck.PfxTwoTry | AffixMgr.cs:965-967 | corrected (reaches the corrected SfxCheckTwoSfx through PfxCheckTwoSfx, Findings row SfxEntry.cs:264-273): one candidate of prefix_check_twosfx gives check_twosfx's answer |
| AffixCheck.PfxTwoZero | AffixMgr.cs:963-968 | corrected (reaches the corrected SfxCheckTwoSfx through PfxTwoTry, Findings row SfxEntry.cs:264-273): the loop over the zero-length prefixes returns the first candidate in list order that check_twosfx accepts |
| AffixCheck.PfxTwoStep | AffixMgr.cs:973-989 | corrected (reaches the corrected SfxCheckTwoSfx through PfxTwoTry, Findings row SfxEntry.cs:264-273): one step of the chain walk either returns the first hit from position k or moves strictly forward along the chain without losing a hit |
| AffixCheck.PfxTwoWalk | AffixMgr.cs:972-989 | corrected (reaches the corrected SfxCheckTwoSfx through PfxTwoStep, Findings row SfxEntry.cs:264-273): the do-while over the chain of the first character returns the first hit of the pruned search |
| AffixCheck.PfxTwoIndexed | AffixMgr.cs:970-991 | corrected (reaches the corrected SfxCheckTwoSfx through PfxTwoWalk, Findings row SfxEntry.cs:264-273): the general case of prefix_check_twosfx returns the first hit over the chain of the word's first character |
| AffixCheck.PrefixCheckTwo | AffixMgr.cs:949-992 | corrected (SfxEntry.check_twosfx passes the stem length with its strip, Findings row SfxEntry.cs:264-273): prefix_check_twosfx returns what its specification returns |
| AffixCheck.AffixCheck | AffixMgr.cs:3102-3133 | corrected (SfxEntry.check_twosfx passes the stem length with its strip, Findings row SfxEntry.cs:264-273): affix_check tries prefixes, then suffixes, then, when continuation classes exist, two-level suffixes and prefixes with two-level suffixes, and returns what its specification returns |
| AffixCheck.TwoHitFound | AffixMgr.cs:2788-2840 | corrected (stated of the specification of suffix_check_twosfx, whose inner query is the corrected InnerQuery, Findings row SfxEntry.cs:264-273): a root suffix_check_twosfx returns is a homonym of a stem stored in the dictionary |
| AffixCheck.TwoIndexedFound | AffixMgr.cs:2809-2839 | corrected (stated of the indexed part with the corrected InnerQuery, Findings row SfxEntry.cs:264-273): a root the indexed part of suffix_check_twosfx returns is a homonym of a stem stored in the dictionary |
| AffixCheck.PfxAtExplained | AffixMgr.cs:929-935 | a hit on one prefix entry comes from a table entry that passes the compound tests, is recorded as the prefix, and whose checkword finds the root in the dictionary |
| AffixCheck.PrefixHitExplained | AffixMgr.cs:877-946 | a root prefix_check returns comes from the prefix it records: a table entry that passes the compound tests and whose checkword accepts the root, which is in the dictionary |
| AffixCheck.PrefixTwoHitFound | AffixMgr.cs:949-992 | corrected (stated of the specification of prefix_check_twosfx, which reaches the corrected InnerQuery, Findings row SfxEntry.cs:264-273): a root prefix_check_twosfx returns is a homonym of a stem stored in the dictionary |
| AffixCheck.AffixHitFound | AffixMgr.cs:3102-3133 | corrected (stated of the specification of affix_check, which reaches the corrected InnerQuery, Findings row SfxEntry.cs:264-273): every root affix_check returns is a homonym of a stem stored in the dictionary |
| AffixCheck.TwoSfxAsWrittenMisses | SfxEntry.cs:264-273 | with the suffixes "ke" and "s" (strip "e") and the stem "mi", check_twosfx as written does not find "miks" |
| AffixCheck.MikInnerMisses | SfxEntry.cs:272-273 | the inner search over the first three characters of "mike" finds nothing |
| AffixCheck.TwoSfxCorrectedFinds | SfxEntry.cs:218-280 | with the inner length corrected, "miks" is found through "mike" |
| AffixCheck.MikeInner | AffixMgr.cs:2657-2785 | the corrected inner search over "mike" finds "mi" through the suffix "ke" |
| RepLists.CompareAtZero | RepList.cs:24 | the ordinal comparison of the text against a pattern's length is 0 exactly when the pattern is a prefix of the text |
| RepLists.CompareAtUpward | RepList.cs:24-26 | a pattern comparing above the text stays so for every pattern ordinally after it, which is what lets the search drop the right half |
| RepLists.CompareAtBeside | RepList.cs:24-33 | after a matching pattern, later patterns that do not extend it compare above the text |
| RepLists.FindIn | RepList.cs:16-36 | find returns -1 or the index of a pattern the text starts with |
| RepLists.FindFromLast | RepList.cs:21-34 | from any window holding the last pattern not ordinally after the text, when that pattern matches, the loop ends on it |
| RepLists.FindLast | RepList.cs:30-33 | when the last pattern not ordinally after the text matches, find returns it, the longest match |
| RepLists.FindExact | RepList.cs:16-36 | in a sorted table a pattern searched for itself is always found at its own index |
| RepLists.FindPrefixFree | RepList.cs:16-36 | in a sorted prefix-free table find misses no pattern the text starts with |
| RepLists.FindCanMiss | RepList.cs:21-34 | in general the binary search can miss a match: "abc" against "a", "abb", "abd" returns -1 |
| RepLists.Requested | RepList.cs:40-42 | the first context tried: bit 1 for the word start, 2 or more exactly when the pattern is the whole rest of the word |
| RepLists.Chain | RepList.cs:43-44 | the contexts replace tries start at the requested one, each step is the source's fallback, and the chain ends at the middle-of-word slot |
| RepLists.ChosenFirst | RepList.cs:43-45 | replace returns the first non-empty outstring along the chain, or the middle-of-word slot when all are empty |
| RepLists.ReplaceWholeWord | RepList.cs:38-46 | a whole word read at its start falls back from the whole-word slot to the end, start and middle slots in turn |
| RepLists.Spaced | RepList.cs:66 | every underscore becomes a space and nothing else changes |
| RepLists.Context | RepList.cs:54-66 | a leading underscore asks for the word start, a trailing one for the word end; the rest has its underscores turned into spaces |
| RepLists.Fresh | replentry.cs:9-14 | a new entry holds the outstring in the slot of its context and empty strings elsewhere |
| RepLists.InsertedSplit | RepList.cs:78-91 | inserting puts the entry between the entries before the insertion point and those after it |
| RepLists.InsertPosAfter | RepList.cs:82-90 | every entry after the insertion point has a pattern ordinally after the new one |
| RepLists.InsertPosBefore | RepList.cs:82-90 | in a sorted table without the new pattern, every entry before the insertion point is ordinally before it |
| RepLists.SortedInsertAt | RepList.cs:78-91 | an entry placed between the smaller and the larger patterns keeps the table sorted |
| RepLists.InsertedTable | RepList.cs:78-91 | inserting a new pattern keeps the table sorted and shaped, and adds exactly that entry |
| RepLists.AddKeepsTable | RepList.cs:48-93 | add keeps the table sorted by ordinal pattern with no pattern twice |
| RepLists.AddExisting | RepList.cs:68-75 | add of a pattern already present only replaces that entry's outstring for the context |
| RepLists.AddNew | RepList.cs:77-92 | add of a new pattern inserts one entry with the outstring in the slot of its context, at its ordinal place |
| RepLists.ConvertedStep | RepList.cs:100-118 | conv at one position either copies the character or emits the chosen outstring and skips the pattern |
| RepLists.ConvertedUnchanged | RepList.cs:120 | when no replacement applies anywhere, conv returns the word itself |
| RepLists.ConvertedApplies | RepList.cs:102-117 | where a replacement applies, the pattern occurs there and conv emits its outstring, then converts the text after the pattern |
| RepLists.Insert | RepList.cs:79-91 | the shifting loop of add produces the specified insertion |
| RepLists.InsertedShift | RepList.cs:84-86 | an entry larger than the new one is shifted up one place |
| RepLists.InsertedStop | RepList.cs:88-91 | the loop stops at the first entry not larger than the new one and places the entry after it |
| RepLists.RepList.constructor | RepList.cs:11-14 | a new list is empty |
| RepLists.RepList.Find | RepList.cs:16-36 | the binary search returns what FindIn specifies for the text from atstart |
| RepLists.RepList.Replace | RepList.cs:38-46 | replace returns the outstring the fallback chain chooses |
| RepLists.RepList.Add | RepList.cs:48-93 | add returns 1 without change for an empty argument; otherwise it returns 0 and the table becomes the specified one, still sorted with distinct patterns |
| RepLists.RepList.Conv | RepList.cs:95-123 | conv returns the word with the table's replacements applied left to right |
| RepLists.RepList.ConvStep | RepList.cs:102-117 | one pass of conv's loop keeps the pending text and the output consistent with the specification and moves forward |
| RepLists.RepList.CheckAgainstBreaktable | RepList.cs:125-143 | the answer is false exactly when some non-empty outstring contains a break pattern |
| Suggest.AfterTestGrows | SuggestMgr.cs:60-79 | testsug leaves the list as it is or appends the candidate, and appends it exactly when the list is not full, does not hold it, and checkword accepts it |
| Suggest.TriedBounded | SuggestMgr.cs:66-67 | however many candidates are offered, the list never grows past maxSug |
| Suggest.TriedDistinct | SuggestMgr.cs:69 | testsug never adds a suggestion already present |
| Suggest.TriedKeeps | SuggestMgr.cs:60-79 | offering candidates keeps the old list as a prefix, adds only accepted candidates, and lists every accepted candidate unless the list filled up |
| Suggest.TriedMonotone | SuggestMgr.cs:60-79 | the list never shrinks |
| Suggest.SugList.TestSug | SuggestMgr.cs:60-79 | the list and the info flags become what testsug specifies, with the compound flag set for a compound accepted outside compound suggestion |
| Suggest.ExtraCandsAre | SuggestMgr.cs:548-559 | extrachar offers exactly the words with one character deleted, and nothing for words shorter than 2 |
| Suggest.ExtraChar | SuggestMgr.cs:548-559 | the list becomes what offering the deletions, from the last position down, gives |
| Suggest.SwappedTwice | SuggestMgr.cs:740-742 | exchanging the same two positions twice restores the word, so the buffer is the word again after each try |
| Suggest.SwappedPermutes | SuggestMgr.cs:740 | an exchange keeps the characters of the word |
| Suggest.SwapTest | SuggestMgr.cs:740-742 | one exchange is offered and the buffer is restored to the word |
| Suggest.SwapCandsAre | SuggestMgr.cs:726-765 | swapchar offers exactly the adjacent exchanges, then for 4- and 5-letter words the two double exchanges; every candidate rearranges the word |
| Suggest.SwapChar | SuggestMgr.cs:726-765 | the list becomes what offering swapchar's candidates in order gives |
| Suggest.DoubleSwapTest | SuggestMgr.cs:747-762 | the double exchanges are built in the buffer from the word and offered |
| Suggest.LongSwapCandsAre | SuggestMgr.cs:768-793 | longswapchar offers exactly the exchanges of two positions 2 to 4 apart |
| Suggest.LongSwapChar | SuggestMgr.cs:768-793 | the list becomes what offering the long exchanges in loop order gives |
| Suggest.LongRowTest | SuggestMgr.cs:780-789 | the inner loop offers position p against every q at distance 2 to 4, and the buffer is the word again |
| Suggest.MovedAre | SuggestMgr.cs:807-829 | a move takes the character out at p and puts it back at q; deleting it there gives the word without p |
| Suggest.MovedRightStep | SuggestMgr.cs:812 | one exchange of the forward loop carries the character one place right |
| Suggest.MovedLeftStep | SuggestMgr.cs:824 | one exchange of the backward loop carries the character one place left |
| Suggest.MoveCandsAre | SuggestMgr.cs:796-832 | movechar offers exactly the moves of one character by 2 to 4 places, rightward moves first |
| Suggest.RightRowNext | SuggestMgr.cs:810-816 | a step of the forward loop offers the move once it is by 2 or more |
| Suggest.LeftRowNext | SuggestMgr.cs:822-828 | a step of the backward loop offers the move once it is by 2 or more |
| Suggest.RightRowTest | SuggestMgr.cs:810-816 | the forward inner loop offers the rightward moves of the character at p |
| Suggest.CarryRight | SuggestMgr.cs:812-815 | one exchange, then a test once the move is by 2 or more |
| Suggest.LeftRowTest | SuggestMgr.cs:822-828 | the backward inner loop offers the leftward moves of the character at p |
| Suggest.CarryLeft | SuggestMgr.cs:824-827 | one exchange, then a test once the move is by 2 or more |
| Suggest.MoveChar | SuggestMgr.cs:796-832 | the list becomes what offering movechar's candidates in loop order gives |
| Suggest.MoveRights | SuggestMgr.cs:807-817 | the first outer loop, each row starting from a fresh copy of the word |
| Suggest.MoveLefts | SuggestMgr.cs:819-829 | the second outer loop, each row starting from a fresh copy of the word |
| Suggest.InsertedAre | SuggestMgr.cs:580-596 | an insertion splits the word at i and puts c between; deleting it again gives the word back |
| Suggest.ForgotFromOnly | SuggestMgr.cs:578-597 | every candidate of forgotchar inserts one TRY character somewhere |
| Suggest.ForgotFromAll | SuggestMgr.cs:578-597 | forgotchar offers every TRY character at every position |
| Suggest.ForgotCandsAre | SuggestMgr.cs:562-603 | forgotchar offers exactly the insertions of one TRY character before some letter or at the end |
| Suggest.InsertedShift | SuggestMgr.cs:586-595 | copying the neighbour into the gap keeps the buffer the word with a gap one place further |
| Suggest.GapTest | SuggestMgr.cs:582-583 | writing c into the gap offers the insertion at that position |
| Suggest.InsertDownTest | SuggestMgr.cs:580-587 | the backward row offers c at every position from the end down |
| Suggest.InsertUpTest | SuggestMgr.cs:589-596 | the forward row offers c at every position from the start up |
| Suggest.ForgotChar | SuggestMgr.cs:562-603 | the list becomes what offering the insertions, alternating downward and upward rows, gives; the suggestInnerTimer is not modelled (see Left out) |
| Suggest.ForgotTurn | SuggestMgr.cs:578-597 | one turn of the outer loop: the backward row of one TRY character, then the forward row of the next |
| Suggest.DoubleCandsAre | SuggestMgr.cs:430-458 | doubletwochars offers nothing below 5 characters, and otherwise only the word with one copy of a doubled pair removed |
| Suggest.DoubleTwoChars | SuggestMgr.cs:430-458 | the list becomes what offering the candidates the state counter picks gives |
| Suggest.TwoWordsAsWrittenDropsGood | SuggestMgr.cs:617-618 | for the two-letter word "ok" after a good suggestion, twowords as written reports none |
| Suggest.TwoStepGood | SuggestMgr.cs:638-678 | one split point makes the result good, and sets BEST_SUG, exactly on an accepted word pair |
| Suggest.TwoFromGood | SuggestMgr.cs:627-720 | the loop ends good exactly when it started good or some split point gives an accepted word pair; BEST_SUG likewise |
| Suggest.TwoFromPairsOnly | SuggestMgr.cs:649-655 | once a word pair is found, earlier suggestions are dropped and the list holds word pairs only |
| Suggest.TwoFromOnly | SuggestMgr.cs:680-716 | twowords adds only accepted word pairs and splits into two dictionary words, and splits only while nosplitsugs is off |
| Suggest.TwoWordsGood | SuggestMgr.cs:605-723 | twowords returns true exactly when a good suggestion existed or, for words of 3 or more, some split gives an accepted word pair |
| Suggest.PairTest | SuggestMgr.cs:640-656 | a pair with the separator at p is offered as a best suggestion |
| Suggest.SplitTest | SuggestMgr.cs:695-716 | a split into two dictionary words is added with a space when not listed yet, then with a dash when asked for and the spaced form was new, each only while the list is not full |
| Suggest.TwoStepTest | SuggestMgr.cs:629-719 | one pass moves the buffer gap to p and tries the forms at p |
| Suggest.TwoWords | SuggestMgr.cs:610-723 | corrected (a word below 3 characters returns good, Findings row SuggestMgr.cs:617-618): the list, the flags and the result become what twowords specifies |
| SuggestMetrics.IndexIn | SuggestMgr.cs:1468-1470 | String.IndexOf over a window returns -1 or a position in the window holding the character, with no earlier one holding it |
| SuggestMetrics.FirstChar | SuggestMgr.cs:1470 | a gram occurs only where its first character does, so IndexOf may skip the other positions |
| SuggestMetrics.GramOne | SuggestMgr.cs:1467-1468 | a one-character gram occurs exactly when IndexOf finds its character |
| SuggestMetrics.NoGram | SuggestMgr.cs:1470-1472 | when the search runs out, the gram occurs nowhere in s2 |
| SuggestMetrics.GramRest | SuggestMgr.cs:1471 | a candidate whose first character matches is an occurrence exactly when the ordinal comparison of the rest gives 0 |
| SuggestMetrics.NoGramUpTo | SuggestMgr.cs:1470-1472 | a failed round extends the range of positions known to hold no occurrence |
| SuggestMetrics.GramFound | SuggestMgr.cs:1466-1473 | the inner search reports a hit exactly when the j-gram of s1 at i occurs in s2 |
| SuggestMetrics.LevelCount | SuggestMgr.cs:1463-1481 | one level counts +1 per gram found and, weighted, -1 per gram missing with another -1 at either end |
| SuggestMetrics.Ngram | SuggestMgr.cs:1447-1494 | ngram returns the specified score: 0 for an empty s2, the levels up to n (stopping early below 2 when unweighted), less the length penalty |
| SuggestMetrics.SelfLevel | SuggestMgr.cs:1463-1481 | a word against itself finds every one of its grams |
| SuggestMetrics.LevelBounds | SuggestMgr.cs:1463-1481 | an unweighted level is between 0 and the number of grams |
| SuggestMetrics.LeftCommon | SuggestMgr.cs:1497-1514 | with COMPLEXPREFIXES the result is 1 exactly when s1 is non-empty, no longer than s2 and the last characters agree; otherwise 0 exactly when a word is empty or the first characters differ even after lowering s2's, and else the length of the common start, stopping at the first difference |
| SuggestMetrics.MismatchesAre | SuggestMgr.cs:1525-1542 | the mismatch list holds, in increasing order, exactly the positions where the characters differ |
| SuggestMetrics.CommonPositions | SuggestMgr.cs:1516-1548 | the count is the number of shared positions where s1 agrees with the lowered s2, and is_swap holds exactly for two mismatches, equal lengths and crossed characters |
| SuggestMetrics.PositionsSplit | SuggestMgr.cs:1525-1542 | every shared position counts once, as agreeing or as a mismatch |
| SuggestMetrics.Exchanged | SuggestMgr.cs:1543-1546 | an exchange swaps two positions and keeps the others |
| SuggestMetrics.ExchangedMismatches | SuggestMgr.cs:1525-1542 | a word against itself with two different characters exchanged mismatches at exactly those two positions |
| SuggestMetrics.ExchangeIsSwap | SuggestMgr.cs:1543-1546 | such an exchange is reported as a swap, with every other position agreeing |
| SuggestMetrics.LcsLongest | SuggestMgr.cs:1569-1589 | no common subsequence of the prefixes is longer than the recurrence's value |
| SuggestMetrics.LcsCommon | SuggestMgr.cs:1569-1589 | some common subsequence of the prefixes has the recurrence's length |
| SuggestMetrics.CellValueOk | SuggestMgr.cs:1573-1587 | while no count can pass a byte, one cell's rule gives the longest common subsequence length and its direction |
| SuggestMetrics.Cell | SuggestMgr.cs:1573-1587 | one cell is filled by the rule and no other length changes |
| SuggestMetrics.WrapCell | SuggestMgr.cs:1573-1587 | for words whose counts can pass a byte, one cell is filled and no other changes |
| SuggestMetrics.LcsTable | SuggestMgr.cs:1553-1591 | when the shorter word has fewer than 256 characters every cell holds the direction of the recurrence |
| SuggestMetrics.LcsLen | SuggestMgr.cs:1593-1614 | for such words the walk back counts exactly the length of a longest common subsequence |
| SuggestCheck.Head | SuggestMgr.cs:1173-1175 | the lookup yields a homonym exactly when the word has one, and then the first |
| SuggestCheck.Unpassed | SuggestMgr.cs:1182-1193 | the homonym the skipping loop stops at is one it does not pass over; with none, every later homonym is passed over |
| SuggestCheck.SkipPassed | SuggestMgr.cs:1182-1193 | the loop skips NEEDAFFIX, ONLYUPCASE and ONLYINCOMPOUND homonyms one by one and stops at the first other one |
| SuggestCheck.Direct | SuggestMgr.cs:1173-1196 | a dictionary hit is taken, unless barred, else prefix_check is asked |
| SuggestCheck.Affixed | SuggestMgr.cs:1203-1212 | corrected (reaches the corrected SfxCheckTwoSfx through SuffixCheckTwo and PrefixCheckTwo, Findings row SfxEntry.cs:264-273): suffix_check, then with continuation classes suffix_check_twosfx and prefix_check_twosfx, in that order |
| SuggestCheck.Root | SuggestMgr.cs:1173-1212 | corrected (reaches the corrected SfxCheckTwoSfx through Affixed, Findings row SfxEntry.cs:264-273): the root comes from the lookup or prefix_check, marked as found without a suffix, else from the affixed readings |
| SuggestCheck.PlainCheck | SuggestMgr.cs:1173-1229 | corrected (reaches the corrected SfxCheckTwoSfx through Root, Findings row SfxEntry.cs:264-273): the non-compound path answers at most 3 and exactly what its specification answers |
| SuggestCheck.BareWordAccepted | SuggestMgr.cs:1173-1227 | corrected (stated of the suggestion checker, which reaches the corrected InnerQuery through affix_check, Findings row SfxEntry.cs:264-273): a dictionary word whose first homonym carries no flags is accepted as a plain word |
| SuggestCheck.AcceptedRoot | SuggestMgr.cs:1175-1228 | corrected (stated of the suggestion checker, which reaches the corrected InnerQuery through affix_check, Findings row SfxEntry.cs:264-273): an accepted candidate has a root no forbidding flag spoils, and its lookup entry is not barred |
| SuggestCheck.CheckWord | SuggestMgr.cs:1144-1230 | corrected (reaches the corrected CpdRep (the call at AffixMgr.cs:1982) and the corrected SfxCheckTwoSfx through PlainCheck and Compound.CompoundCheck, Findings row AffixMgr.cs:1098-1107 and Findings row SfxEntry.cs:264-273): an expired timer gives 0; compound suggestion answers 0 or 3, and 3 only when COMPOUND is on, the lookup entry does not forbid it and a compound reading exists; otherwise the answer is the plain path's |
| CompoundRules.HasFlagTest | AffixMgr.cs:1251-1253 | a member carries the flag exactly when it exists, has flags and TESTAFF finds it |
| CompoundRules.CodeLess | AffixMgr.cs:1294-1302 | a digit string that agrees with another down to t and is smaller at t is the smaller number, the measure backtracking lowers |
| CompoundRules.PushLess | AffixMgr.cs:1248-1269 | pushing a backtracking point above the others lowers the measure |
| CompoundRules.DecLess | AffixMgr.cs:1298 | taking one member back from the top point lowers its digit and changes no other |
| CompoundRules.PopDecLess | AffixMgr.cs:1296-1301 | dropping an exhausted top point and taking one member back from the point below lowers the measure |
| CompoundRules.SkipOptional | AffixMgr.cs:1287-1290 | the skip over trailing "flag, wildcard" pairs never moves backwards |
| CompoundRules.SkipOptionalLoop | AffixMgr.cs:1286-1290 | the skipping loop ends where the specification does |
| CompoundRules.LiteralSkip | AffixMgr.cs:1287-1290 | a rule without wildcards has nothing to skip |
| CompoundRules.TakeWildcard | AffixMgr.cs:1250-1258 | the wildcard takes members from wp on while they carry the flag, stopping at the first that does not or past wend |
| CompoundRules.WildcardStep | AffixMgr.cs:1242-1271 | a rule position followed by a wildcard advances the pattern by 2, keeps the backtracking stack well formed and never raises the measure |
| CompoundRules.PushOk | AffixMgr.cs:1261-1269 | pushing a point above a well-formed settled stack keeps it well formed |
| CompoundRules.Scan | AffixMgr.cs:1241-1284 | the forward scan keeps the stack well formed and never raises the measure; for a rule without wildcards it matches the members one by one |
| CompoundRules.PopPoint | AffixMgr.cs:1296-1301 | one round of the unwinding loop shortens the stack and keeps its invariant |
| CompoundRules.UnwoundLess | AffixMgr.cs:1301 | the unwinding stops at a settled top with the measure strictly lower |
| CompoundRules.Backtrack | AffixMgr.cs:1295-1301 | backtracking leaves a well-formed settled stack and, when it is not empty, a strictly lower measure, so the do-while over one rule ends |
| CompoundRules.MatchRule | AffixMgr.cs:1236-1314 | for a rule without wildcards the loop over one rule matches exactly when its flags match members 0 to wnum one for one, all of them when `all` asks for it |
| CompoundRules.NamedTest | AffixMgr.cs:1218-1227 | the pre-scan succeeds exactly when some rule names one of the member's flags outside the wildcards |
| CompoundRules.MatchTable | AffixMgr.cs:1235-1315 | for wildcard-free tables the first rule that matches decides, and the answer is whether any does |
| CompoundRules.DefcpdCheck | AffixMgr.cs:1186-1320 | without a members array or default nothing matches; a match leaves rv at position wnum and names one of rv's flags; a miss clears the slot; for wildcard-free tables the answer is whether some rule matches |
| CompoundRules.CpdMin | AffixMgr.cs:374-375 | cpdmin is COMPOUNDMIN clamped to at least 1, or 3 when the file has none |
| CompoundRules.CMinMaxExact | AffixMgr.cs:1366-1376 | the split positions between cmin and cmax are exactly those leaving both members at least cpdmin long |
| CompoundRules.CpdCaseVetoes | AffixMgr.cs:1179-1183 | a hyphen on either side, or no upper case on either side, never forbids the boundary |
| CompoundRules.PatHitTest | AffixMgr.cs:1158-1170 | one CHECKCOMPOUNDPATTERN entry forbids the boundary exactly when its second pattern starts there, its flag conditions hold and its first pattern, or the unmodified stem for "0", ends there |
| CompoundRules.CpdPatCheck | AffixMgr.cs:1150-1175 | the boundary is forbidden exactly when some entry forbids it |
| CompoundRules.VowelCount | AffixMgr.cs:1347 | the vowel count is at most the length |
| CompoundRules.VowelCountSplit | AffixMgr.cs:1346-1347 | the count of a concatenation is the sum of the counts |
| CompoundRules.VowelCountStep | AffixMgr.cs:1346-1347 | extending the range by one character adds one exactly for a vowel |
| CompoundRules.CountVowels | AffixMgr.cs:1345-1348 | the loop counts the vowels of word[i..end), and 0 for an empty range |
| CompoundRules.GetSyllable | AffixMgr.cs:1338-1350 | 0 when no syllable limit is set; otherwise the vowels of word[i..len), and with the default length those of word[i..Length-i] |
| CompoundRules.SyllablesFrom | AffixMgr.cs:1350 | the corrected default: the vowels of the rest of the word from i |
| CompoundRules.SyllablesDefaultLength | AffixMgr.cs:1343 | for "aaaa" from 2 the default length counts 0 vowels, where the rest of the word has 2 |
| CompoundRules.SyllablesOfSplit | AffixMgr.cs:1346-1347 | the whole word's count is the sum over any split, as the compound checker adds counts up |
| CompoundVetoes.CandidateCheck | AffixMgr.cs:1322-1335 | corrected (reaches the corrected SfxCheckTwoSfx through AffixCheck.AffixCheck, Findings row SfxEntry.cs:264-273): a candidate passes exactly when the lookup or affix_check finds it |
| CompoundVetoes.Clip | AffixMgr.cs:1083 | the length used is the one asked for, at most the word's |
| CompoundVetoes.RepCandidate | AffixMgr.cs:1100-1107 | the candidate is the word with the pattern's length replaced by the mid-word outstring's |
| CompoundVetoes.NoHitUpTo | AffixMgr.cs:1098-1110 | corrected (stated of the candidate check, which reaches the corrected InnerQuery through affix_check, Findings row SfxEntry.cs:264-273): a round of the occurrence loop extends the range known to give no dictionary candidate |
| CompoundVetoes.RepEntryHit | AffixMgr.cs:1095-1111 | corrected (reaches the corrected SfxCheckTwoSfx through CandidateCheck, Findings row SfxEntry.cs:264-273): one REP entry vetoes exactly when some occurrence of its pattern yields a dictionary candidate |
| CompoundVetoes.CpdRep | AffixMgr.cs:1081-1120 | corrected (Findings row AffixMgr.cs:1098-1107): cpdrep_check over the first wl characters answers true exactly when some REP entry with a mid-word outstring turns the word into a dictionary word |
| CompoundVetoes.CpdRepAsWritten | AffixMgr.cs:1098-1107 | corrected (reaches the corrected SfxCheckTwoSfx through CandidateCheck, which checks its candidates, Findings row SfxEntry.cs:264-273): as written, occurrences are searched in the whole word, so one past wl makes the copy fail |
| CompoundVetoes.RepOccurrencePastLength | AffixMgr.cs:1098-1107 | "cd" occurs in "abcd" at 2, past the first two characters, and not in them |
| CompoundVetoes.Spaced | AffixMgr.cs:1134-1135 | the spaced word has one more character and a space at i |
| CompoundVetoes.PairAt | AffixMgr.cs:1136-1137 | corrected (stated of the candidate check, which reaches the corrected InnerQuery through affix_check, Findings row SfxEntry.cs:264-273): a dictionary word pair at an inner split point vetoes the compound |
| CompoundVetoes.NoPairStep | AffixMgr.cs:1132-1138 | corrected (stated of the candidate check, which reaches the corrected InnerQuery through affix_check, Findings row SfxEntry.cs:264-273): a failed split point extends the range known to give no pair |
| CompoundVetoes.NoPairAll | AffixMgr.cs:1146 | corrected (stated of the candidate check, which reaches the corrected InnerQuery through affix_check, Findings row SfxEntry.cs:264-273): when no inner split point gives a pair, the compound is not vetoed |
| CompoundVetoes.Shifted | AffixMgr.cs:1128-1131 | the buffer holds the first wl characters from position 1 |
| CompoundVetoes.MoveSpace | AffixMgr.cs:1134-1135 | moving the space one place right leaves the word spaced before i |
| CompoundVetoes.CpdWordPair | AffixMgr.cs:1124-1147 | corrected (reaches the corrected SfxCheckTwoSfx through CandidateCheck, Findings row SfxEntry.cs:264-273): cpdwordpair_check answers true exactly when some split point strictly inside the first wl characters gives a dictionary word pair |
| Compound.CpdTimer.constructor | Timer.cs:5-8 | a new compound timer is not expired, its stopwatch at zero and not yet read |
| Compound.CpdTimer.Poll | AffixMgr.cs:1409-1416 | a whole-word search (wordnum 0) clears IsExpired and restarts the stopwatch; a nested search keeps the start and sets IsExpired exactly when it was set or more than TIMELIMIT has elapsed |
| Compound.FirstHomonym | AffixMgr.cs:1516-1534 | outside the COMPOUNDRULE pass the homonym found is one the flag test admits (no NEEDAFFIX; COMPOUNDFLAG, COMPOUNDBEGIN on a whole word or COMPOUNDMIDDLE inside a compound) and the member buffer is untouched |
| Compound.FlaggedFirst | AffixMgr.cs:1543-1561 | corrected (reaches the corrected SfxCheckTwoSfx through AffixCheck.SuffixCheckTwo, Findings row SfxEntry.cs:264-273): a first member found with COMPOUNDFLAG is a prefixed, suffixed or two-suffix reading of word[..i] |
| Compound.BoundaryFirst | AffixMgr.cs:1563-1586 | corrected (reaches the corrected SfxCheckTwoSfx through AffixCheck.SuffixCheckTwo, Findings row SfxEntry.cs:264-273): a first member found with COMPOUNDBEGIN or COMPOUNDMIDDLE is a prefixed, suffixed or two-suffix reading of word[..i] |
| Compound.FirstReading | AffixMgr.cs:1486-1598 | corrected (reaches the corrected SfxCheckTwoSfx through FlaggedFirst and BoundaryFirst, Findings row SfxEntry.cs:264-273): the entry found reads word[..i]; an unaffixed one is a dictionary homonym of it; in the COMPOUNDRULE pass only roots count and the member is collected; outside it the buffer is untouched |
| Compound.FirstMember | AffixMgr.cs:1486-1683 | corrected (reaches the corrected SfxCheckTwoSfx through FirstReading, Findings row SfxEntry.cs:264-273): an accepted first member is never forbidden, reads word[..i], has no affix whose continuation holds COMPOUNDFORBIDFLAG, and raises wordnum by at most one (COMPOUNDROOT) |
| Compound.SecondHomonym | AffixMgr.cs:1716-1731 | outside a rule match it returns the first homonym with COMPOUNDFLAG or COMPOUNDEND and no NEEDAFFIX, none before it qualifies, and the buffer is untouched; during a rule match the one returned is stored and matches a rule |
| Compound.Vetoes | AffixMgr.cs:1792-1797 | corrected (reaches the corrected SfxCheckTwoSfx through CpdWordPair and the candidate check of CpdRep, Findings row SfxEntry.cs:264-273): the compound is accepted exactly when no dictionary word pair and (with CHECKCOMPOUNDREP) no REP fault turns it into a simple word |
| Compound.SameHead | AffixMgr.cs:1996-2000 | the backward loop on l succeeds exactly when the first l characters of both words agree |
| Compound.WholeForbidden | AffixMgr.cs:1988-2000 | corrected (reaches the corrected SfxCheckTwoSfx through AffixCheck.AffixCheck, Findings row SfxEntry.cs:264-273): the whole word refuses the compound only when the forbidden reading covers the first l characters, so l is within the word |
| Compound.SecondRoot | AffixMgr.cs:1716-1798 | corrected (reaches the corrected SfxCheckTwoSfx through Vetoes, Findings row SfxEntry.cs:264-273): an accepted second root yields the first member, and, when not settled by a rule match, only after the word-pair and REP vetoes have cleared the whole word |
| Compound.SecondAffixed | AffixMgr.cs:1800-1941 | corrected (reaches the corrected SfxCheckTwoSfx through AffixCheck.AffixCheck and Vetoes, Findings row SfxEntry.cs:264-273): an accepted affixed second member yields the first member, and, when not settled by a rule match, only after the word-pair and REP vetoes have cleared the whole word |
| Compound.SubVetoes | AffixMgr.cs:1965-2005 | corrected (cpdrep_check searches only the first wl characters, Findings row AffixMgr.cs:1098-1107): a compound whose rest is itself a compound is accepted only when the word-pair and REP vetoes clear the whole word; a veto on the first part moves on to the next pass instead |
| Compound.SecondCompound | AffixMgr.cs:1946-2005 | corrected (reaches the corrected CpdRep (the call at AffixMgr.cs:1982) and the corrected SfxCheckTwoSfx through SubVetoes, Findings row AffixMgr.cs:1098-1107 and Findings row SfxEntry.cs:264-273): the rest read as a compound (the recursive call) accepts only the first member and only when the vetoes clear the whole word |
| Compound.SecondMember | AffixMgr.cs:1704-2005 | corrected (reaches the corrected CpdRep (the call at AffixMgr.cs:1982) and the corrected SfxCheckTwoSfx through SecondCompound, SecondRoot and SecondAffixed, Findings row AffixMgr.cs:1098-1107 and Findings row SfxEntry.cs:264-273): the rest as a root, as an affixed word or as a compound: whatever accepts returns the first member and has passed the vetoes unless a rule match settled it |
| Compound.SecondMembers | AffixMgr.cs:1701-2014 | corrected (reaches the corrected CpdRep (the call at AffixMgr.cs:1982) and the corrected SfxCheckTwoSfx through SecondMember, Findings row AffixMgr.cs:1098-1107 and Findings row SfxEntry.cs:264-273): the SIMPLIFIEDTRIPLE retry from i - 1 keeps the same guarantees as one try of the second member |
| Compound.TrySplit | AffixMgr.cs:1438-2016 | corrected (reaches the corrected CpdRep (the call at AffixMgr.cs:1982) and the corrected SfxCheckTwoSfx through FirstMember and SecondMembers, Findings row AffixMgr.cs:1098-1107 and Findings row SfxEntry.cs:264-273): an expired timer refuses at once; an accepted split returns a non-forbidden reading of word[..i] that has passed the vetoes unless a rule match settled it |
| Compound.SplitAt | AffixMgr.cs:1431-2048 | corrected (reaches the corrected CpdRep (the call at AffixMgr.cs:1982) and the corrected SfxCheckTwoSfx through TrySplit, Findings row AffixMgr.cs:1098-1107 and Findings row SfxEntry.cs:264-273): the passes at split i (the COMPOUNDRULE pass only for a whole word with rules) record only i, refuse when the timer has expired, and keep TrySplit's guarantees |
| Compound.TriedGrows | AffixMgr.cs:1426 | the splits tried at i, appended to those below i, stay in ascending order below i + 1 |
| Compound.AscendingWiden | AffixMgr.cs:1426 | an ascending record of splits stays ascending within a wider bound |
| Compound.CompoundCheck | AffixMgr.cs:1380-2056 | corrected (cpdrep_check searches only the first wl characters, Findings row AffixMgr.cs:1098-1107): splits are tried in ascending order from cpdmin to the length less cpdmin; an expired nested search tries none; a result is the non-forbidden first-member reading at a tried split and, without COMPOUNDRULE, clears the word-pair and REP vetoes |
| SpellFront.LongWordsRefused | Hunspell.cs:327-331 | a word of MAXWORDLEN (100) characters or more is refused by spell, by analyze and, unless it is an XML request, by suggest |
| SpellFront.FirstNonBlank | Hunspell.cs:149-154 | the blank-skipping loop stops at the first non-blank at or after i, every position skipped holding a blank |
| SpellFront.Kept | Hunspell.cs:156-163 | the period-stripping loop keeps a length whose last character is not a period, every character dropped being a period |
| SpellFront.CleanedShape | Hunspell.cs:147-175 | a word is its leading blanks, the cleaned word and its trailing periods, the cleaned word starting with no blank and ending with no period |
| SpellFront.Trim | Hunspell.cs:147-163 | the two loops give the blank count, the kept length and the period count of the trimmed word |
| SpellFront.CleanWord2 | Hunspell.cs:139-175 | cleanword2 returns the word with IGNORE characters removed and then trimmed, the number of trailing periods, and the capitalization class of the result (NOCAP when nothing is left) |
| SpellFront.CountCaps | Hunspell.cs:207-216 | the counting loop counts exactly the upper-case and the case-neutral characters of its range |
| SpellFront.CleanWordAsWritten | Hunspell.cs:177-243 | cleanword as written returns the trimmed word and period count, with the class computed by the counting loop bounded by nl |
| SpellFront.CleanWord | Hunspell.cs:177-243 | corrected (Findings row Hunspell.cs:210): cleanword with the counting loop over the cleaned word returns the trimmed word, its period count and the class of the cleaned word |
| SpellFront.AllUpperClass | Hunspell.cs:221-232 | a cleaned word made only of upper-case letters is INITCAP when it has one letter and ALLCAP otherwise |
| SpellFront.CleanCapMissesTail | Hunspell.cs:210 | for " AB" the loop as written sees only the "A" and answers INITCAP where the cleaned word is ALLCAP |
| SpellFront.NumberScan | Hunspell.cs:352-368 | the separator scan answers true exactly when the word is a number: digits with single separators, none first |
| SpellFront.NumberShape | Hunspell.cs:352-366 | an accepted number never has two separators in a row |
| SpellFront.SpellFront | Hunspell.cs:315-368 | spell_internal before the dictionary lookups: XML accepted, long words refused, input conversion, cleaning, the empty word and numbers accepted, otherwise the cleaned word, class and period count go on |
| SpellFront.CandidateStack.constructor | Hunspell.cs:280-284 | a fresh candidate stack is empty |
| SpellFront.Spell | Hunspell.cs:294-304 | a word already on the candidate stack is refused; otherwise the answer is spell_internal's with the word pushed, and the stack is restored afterwards |
| SpellFront.RemoveDuplicates | Hunspell.cs:838-855 | the pass leaves the first occurrence of each suggestion, in the original order, and cuts the list there |
| SpellBreak.CountOne | Hunspell.cs:525-530 | the loop counts the non-overlapping occurrences of one break string, left to right |
| SpellBreak.CountBreaks | Hunspell.cs:519-531 | the loop sums the occurrences of every break string in the table |
| SpellBreak.BoundaryPass | Hunspell.cs:535-556 | the boundary pass accepts exactly when some ^begin or end$ string of the table matches at its end of the word and the rest spells |
| SpellBreak.SecondTry | Hunspell.cs:561-587 | one break string accepts exactly when the split at its second inner occurrence (or the first when there is no second) has both sides spelling |
| SpellBreak.SplitAt | Hunspell.cs:570-577 | a split at an inner occurrence accepts exactly when the right side and then the left side spell |
| SpellBreak.FirstTry | Hunspell.cs:593-603 | one break string accepts exactly when the split at its first inner occurrence has both sides spelling |
| SpellBreak.SecondPass | Hunspell.cs:559-588 | the pass accepts exactly when some break string accepts at its second occurrence |
| SpellBreak.FirstPass | Hunspell.cs:591-614 | the pass accepts exactly when some break string accepts at its first occurrence |
| SpellBreak.BreakCheck | Hunspell.cs:515-617 | the break recursion accepts exactly as its specification does, and never when the word holds 10 or more break occurrences |
| SpellBreak.SplitsAtParts | Hunspell.cs:570-577 | an accepted split writes the word as two non-empty spelling parts around the break string |
| SpellBreak.InnerSplitParts | Hunspell.cs:559-614 | an inner-pattern acceptance writes the word as two non-empty spelling parts around the break string |
| SpellBreak.BoundaryParts | Hunspell.cs:542-555 | a boundary acceptance drops the marked string from the start (^) or the end ($) and the rest spells |
| SpellSharps.Rewritten | Hunspell.cs:256 | replacing the "ss" at pos by the sharp s makes the word one character shorter |
| SpellSharps.NextPair | Hunspell.cs:253 | the position found holds "ss" at or after from, or there is none (-1) |
| SpellSharps.NextPairIsFirst | Hunspell.cs:253 | the position found is the first occurrence of "ss" at or after from |
| SpellSharps.SharpsIsFirstFound | Hunspell.cs:245-267 | spellsharps returns checkword's answer for the first candidate, in its search order, that checkword accepts |
| SpellSharps.RewriteCount | Hunspell.cs:256 | a rewrite adds exactly one sharp s |
| SpellSharps.SharpCandidates | Hunspell.cs:245-267 | every word spellsharps hands to checkword has between 1 and MAXSHARPS of its "ss" pairs rewritten, being that many characters shorter with that many more sharp s |
| SpellSharps.NoPairNoCheck | Hunspell.cs:253-266 | a word without "ss" is never checked and gives no result |
| IgnoreChars.IndexOfAny | AffixMgr.cs:4888 | the position found is the first at or after from that holds an ignored character, or there is none (-1) |
| IgnoreChars.RemoveIgnoredChars | AffixMgr.cs:4884-4899 | without IGNORE the word is returned as it is; otherwise exactly the word without its ignored characters, in order |
| IgnoreChars.StrippedClean | AffixMgr.cs:4888-4889 | a word holding no ignored character is returned whole |
| IgnoreChars.StrippedIdempotent | AffixMgr.cs:4884-4899 | removing the ignored characters twice is removing them once |
| IgnoreChars.StrippedAppend | AffixMgr.cs:4884-4899 | removing the ignored characters distributes over concatenation |
| Phonet.PhoneTable.constructor | phonetable.cs:11-12 | a new table has no rules and an empty index |
| Phonet.PhoneTable.Add | phonetable.cs:14-19 | the rule's characters followed by '\0' become the next entry and nothing else changes |
| Phonet.PhoneTable.InitHash | phonetable.cs:23-33 | the index maps each first character of an even-indexed rule to the smallest such index, the rules unchanged |
| Phonet.PhoneTable.Phonet | phonetable.cs:42-262 | corrected (the "^^" test finds two carets after the first character, Findings row phonetable.cs:229-230): a word longer than MAXPHONETLEN (256) gives ""; with '\0'-terminated rules no scan runs off the table; the code is at most twice the word long, no longer than it without "^^" rules, drawn from the word's and the rules' characters, with no '\0'; when the rules for the first letter run to the end of the table and none can fit, it throws. A table built by the PHONE parser is never Terminated, having no empty final pair, so for parsed tables the no-throw clause gives nothing (Findings row phonetable.cs:60-63). |
| Phonet.AlphabetCovers | phonetable.cs:42-262 | the alphabet of a run holds every character of the word and of every rule |
| Phonet.FirstNul | phonetable.cs:37 | the position found is the first '\0' at or after from |
| Phonet.StrMove | phonetable.cs:35-40 | strmove copies the characters from src up to the first '\0' down to dest and terminates them there |
| Phonet.StrMoveTerm | phonetable.cs:35-40 | on a terminated word strmove leaves a terminated word with [dest, src) cut out, over the same characters |
| Phonet.MatchHead | phonetable.cs:63-101 | the head of a rule matches at least one letter, within the word, and stops inside the rule; for a Blocked rule only the first letter matches and nothing after it is read |
| Phonet.FollowMatch | phonetable.cs:116-153 | a follow-up rule matches at least the letters already matched, within the word, and stops inside the rule |
| Phonet.FollowFits | phonetable.cs:154-175 | a follow-up rule takes over only with a priority at least that of the rule it follows |
| Phonet.FollowUp | phonetable.cs:103-183 | the follow-up test runs only after a several-letter pattern without '-' that does not end the word, and cannot fail on terminated rules. A table built by the PHONE parser is never Terminated, having no empty final pair, so for parsed tables the no-throw clause gives nothing (Findings row phonetable.cs:60-63). |
| Phonet.CaretsMissed | phonetable.cs:229-230 | the lookup of "^^" as written never succeeds, while the intended test finds "^^" in "A^^" |
| Phonet.FindCarets | phonetable.cs:229-230 | the corrected test holds exactly when "^^" occurs after the first character of the rule |
| Phonet.CondenseShape | phonetable.cs:219-226 | the appending loop only extends the output, never past the larger of its length and len, with replacement characters, and never creates a repeated neighbour |
| Phonet.Overwrite | phonetable.cs:203-208 | the copy loop writes the replacement over the word from i until either ends and changes nothing else |
| Phonet.NoCut | phonetable.cs:209 | without strmove the overwritten word is the splice with nothing cut |
| Phonet.CutAfter | phonetable.cs:209-210 | after the overwrite, strmove cuts exactly the matched letters left over |
| Phonet.CutFacts | phonetable.cs:209-210 | the cut leaves a terminated word over the same characters, the splice of the replacement |
| Phonet.LtReplace | phonetable.cs:192-214 | a '<' rule drops the last output character when it repeats the letter or the replacement's start, and splices the replacement into the word over the matched letters |
| Phonet.Rewrite | phonetable.cs:203-210 | the word becomes the splice of the replacement over the matched letters, still terminated |
| Phonet.Cut | phonetable.cs:209-210 | strmove after a short overwrite cuts k - w letters and keeps the word terminated |
| Phonet.Append | phonetable.cs:219-226 | the appending loop gives the condensed output and the position of the replacement's last character |
| Phonet.Restart | phonetable.cs:236 | strmove to the start moves the rest of the word from src to position 0 |
| Phonet.PlainReplace | phonetable.cs:216-239 | without "^^" the cursor moves to the last matched letter and the condensed replacement is output, the word untouched; with "^^" the last character is output too and the rest of the word restarts at 0 |
| Phonet.TryRule | phonetable.cs:63-243 | corrected (the "^^" test finds two carets after the first character, Findings row phonetable.cs:229-230): a rule either passes, leaving the word untouched, or applies; it fails only when a scan runs past an unterminated table; a Blocked rule passes. A table built by the PHONE parser is never Terminated, having no empty final pair, so for parsed tables the no-throw clause gives nothing (Findings row phonetable.cs:60-63). |
| Phonet.Replace | phonetable.cs:185-241 | corrected (the "^^" test finds two carets after the first character, Findings row phonetable.cs:229-230): the replacement keeps the word terminated and within its alphabet, the output clean, and sets the '<' marker p0 from the rule |
| Phonet.AtLetter | phonetable.cs:57-245 | corrected (the "^^" test finds two carets after the first character, Findings row phonetable.cs:229-230): one round of the main loop keeps the word terminated and no longer, the cursor within it, and the output clean; it cannot fail on terminated rules; when the rules for the letter run off the table without fitting, it fails. A table built by the PHONE parser is never Terminated, having no empty final pair, so for parsed tables the no-throw clause gives nothing (Findings row phonetable.cs:60-63). |
| Phonet.PhoneTable.Terminate | phonetable.cs:60-63 | appending two empty rules terminates an even table, so phonet on it never throws |
| Phonet.ParsedTableThrows | phonetable.cs:60-63 | the parsed table with the single pair "AB" -> "X" makes phonet("AC") throw: the scan of the rules for 'A' steps past the table |
| Phonet.TerminatedTableCodes | phonetable.cs:60-63 | the same table with the empty final pair codes "AC" without throwing |
| SpellXml.IndexFrom | Hunspell.cs:1666 | an occurrence found lies at or after from and within the text, or there is none (-1) |
| SpellXml.IndexFromFirst | Hunspell.cs:1666 | the occurrence found is the first one at or after from |
| SpellXml.UntilShape | Hunspell.cs:1631-1634 | the copied value is a prefix of the text without the end character, followed by that character or by the end of the text |
| SpellXml.Escape | Hunspell.cs:1635 | the escaped text holds no '<' |
| SpellXml.GetXmlPar | Hunspell.cs:1621-1637 | get_xml_par gives the value its specification reads: empty for a negative position or a bad opening character, otherwise the text up to the closing quote or '<', with the two entities undone |
| SpellXml.CopyUntil | Hunspell.cs:1631-1634 | the copying loop gives the characters from `from` up to the first end character |
| SpellXml.EscapeRoundTrip | Hunspell.cs:1635 | undoing the two entities after escaping gives the text back |
| SpellXml.UntilStops | Hunspell.cs:1631 | the copy stops at the first end character when the value holds none |
| SpellXml.ElementValue | Hunspell.cs:1621-1637 | an escaped element value between '>' and '<' reads back unchanged |
| SpellXml.QuotedValue | Hunspell.cs:1621-1637 | an escaped attribute value between quotes that it does not hold reads back unchanged |
| SpellXml.AttrScan | Hunspell.cs:1664-1673 | a position found lies after the attribute name and within the text |
| SpellXml.GetXmlPos | Hunspell.cs:1656-1674 | get_xml_pos gives the element's '>' without an attribute, and otherwise the attribute scan's answer, -1 for a negative start |
| SpellXml.ScanAttr | Hunspell.cs:1664-1673 | the loop gives exactly the scan's answer, including the throw at an occurrence at position 0 |
| SpellXml.SkipSound | Hunspell.cs:1669-1671 | for a name that cannot overlap itself, the occurrences skipped after an unqualified one are unqualified too |
| SpellXml.AttrScanNone | Hunspell.cs:1664-1668 | for a name that cannot overlap itself, -1 means no occurrence before the tag's end follows a blank or a newline |
| SpellXml.AttrScanFound | Hunspell.cs:1664-1673 | for a name that cannot overlap itself, the position found is just after the first occurrence that follows a blank or newline, and it lies before the tag's end |
| SpellXml.CheckXmlPar | Hunspell.cs:1676-1682 | a true answer means the attribute was found and its value is the one asked for |
| SpellXml.XmlListFrom | Hunspell.cs:1689-1701 | every value collected is non-empty |
| SpellXml.ListEnds | Hunspell.cs:1689-1698 | the list throws past the text or on a value that throws, and ends with nothing more when no tag follows |
| SpellXml.ListNext | Hunspell.cs:1691-1700 | one round either ends the list as specified or adds the value and moves strictly forward |
| SpellXml.GetXmlList | Hunspell.cs:1684-1703 | get_xml_list gives exactly the values its specification collects, none for a negative start |
| SpellXml.ListNeverThrows | Hunspell.cs:1689-1701 | with a non-empty tag and a start inside the text the list never throws |
| CondPrep.Mirror | AffixMgr.cs:4460-4497 | the mirrored atoms are the atoms in the opposite order, each with its group list reversed |
| CondPrep.MirrorMirror | AffixMgr.cs:4460-4497 | mirroring twice gives the atoms back |
| CondPrep.ReverseInPlace | AffixMgr.cs:4465 | the array ends as the reverse of its old contents |
| CondPrep.ReverseWordCondition | AffixMgr.cs:4460-4497 | reverse_word_condition fails with an index error exactly when its reference loop does; otherwise the array holds the reference result, and on a well-formed condition that result reads as the mirrored atoms |
| CondPrep.RenderParse | AffixMgr.cs:4460-4497 | a well-formed condition is the text of the atoms it reads as, each atom well-formed |
| CondPrep.ParseOfRender | AffixMgr.cs:4460-4497 | the text of well-formed atoms reads back as exactly those atoms |
| CondPrep.RevCondMirrors | AffixMgr.cs:4460-4497 | on a well-formed condition reverse_word_condition succeeds and writes the text of the mirrored atoms, which reads back as the mirrored atoms |
| CondPrep.RevCondTwice | AffixMgr.cs:4709-4719 | reversing a well-formed condition twice, as the complexprefixes path does for a suffix, gives the condition back |
| CondPrep.MirrorReadsForward | AffixMgr.cs:4716-4720 | the mirrored condition read backward from a stem's end accepts exactly the stems whose last characters match the original condition left to right |
| CondPrep.GroupForward | AffixMgr.cs:4806-4810 | the do-while over a prefix group stops at the group's closing bracket or the last character, and notes whether the strip character occurs in what it passed |
| CondPrep.GroupBackward | AffixMgr.cs:4837-4841 | the do-while over a suffix group stops at the group's opening bracket or index 0, and notes whether the strip character occurs in what it passed |
| CondPrep.PrefixRedundant | AffixMgr.cs:4793-4824 | the prefix branch answers as its specification: true when the strip starts with the condition or the forward scan reaches the condition's end, false with a warning on a mismatch or an unclosed group, and an index error for a trailing bracket |
| CondPrep.SuffixRedundant | AffixMgr.cs:4825-4857 | the suffix branch answers as its specification: true when the strip ends with the condition or the backward scan consumes the whole condition, false with a warning on a mismatch or an unopened group |
| CondPrep.RedundantCondition | AffixMgr.cs:4786-4859 | redundant_condition answers as its specification, and a true answer on a well-formed condition means the strip itself satisfies it at the affix's end |
| CondPrep.RedundantSound | AffixMgr.cs:4786-4859 | a true answer on a well-formed condition means the atoms hold on the strip's first characters for a prefix and on its last characters for a suffix |
| CondPrep.PrefixRedundantHolds | AffixMgr.cs:4713-4715 | a prefix condition the strip satisfies accepts every stem beginning with the strip, so replacing it by the dot loses nothing |
| CondPrep.SuffixRedundantHolds | AffixMgr.cs:4713-4719 | a suffix condition the strip satisfies, once reversed for storage, is well-formed and accepts every stem ending with the strip, so replacing it by the dot loses nothing |

## Left out

- The file-reading configuration parser (parse_file and the parse_* table readers) is left out. It is driven by FileMgr.getline, text decoding and strict-mode warnings; only the per-field helpers it calls are modelled.
- Encoding and culture lookup is left out: SetEncoding and GetLanguageAndTextInfo are foreign calls. Case mapping and character classes are a parameter.
- Stream I/O is left out: PlainFile, FileMgr, HzipStream, and the constructors and AddDic, which open files. hzip input is a byte sequence.
- Wall-clock time is a clock function passed in. The Stopwatch and Timer classes are not modelled.
- The thread-local Context is not modelled as shared state. Its fields are passed as parameters and returned as results.
- The floating-point ranking of ngsuggest (its weights and `double` scores) is left out.
- Morphological text output is left out: the *_morph variants, compound_check_morph, morphgen, suggest_gen, Stem, Analyze, Generate and spellml. Their trace format is not pinned down.
- The Hungarian-only paths are left out; the model assumes the language is not Hungarian. This covers the hard-wired flag letters, the syllable arithmetic of compound_check, numsyllable accounting and the LANG_hu extra suffix.
- The SIMPLIFIEDCPD substitution loop of compound_check (CHECKCOMPOUNDPATTERN replacements) is left out. The model is compound_check with those patterns' replacements absent.
- Bytes.Chars and Bytes.String are not modelled: they go through System.Text.Encoding.
- The pure data declarations (hentry, replentry, metachar_data, MSEP, MORPH, SPELL, H_OPT, LANG, HunspellException, IHunspellWarningHandler) are datatypes and constants only.
- HzipReader.Hunzip.ReadLine: the count of bytes consumed is tied to the output buffer only when no refill happens during the call. The returned line is a fresh sequence, so the aliasing of the `line` array between calls is not captured.
- CompoundRules.MatchRule: exact against a reference matcher only for rules without `*` and `?`. For wildcard rules only termination and the backtracking stack's invariants are proved.
- CompoundRules.MatchTable: exact only for wildcard-free rules, as MatchRule.
- CompoundRules.DefcpdCheck: exact only for wildcard-free rules, as MatchRule.
- SuggestMetrics.WrapCell: states only that no other cell changes. It fills a cell of a word pair whose lengths can pass a byte, where the byte-sized counts wrap.
- SuggestMetrics.LcsTable: nothing is claimed when the shorter word has 256 or more characters, where the byte-sized lengths wrap.
- SuggestMetrics.LcsLen: nothing is claimed when the shorter word has 256 or more characters, as LcsTable.
- AffixCheck.AffixCheck: the affix-check methods are exact only under Sane, meaning sorted flag sets as the loader builds them.
- Compound.CompoundCheck: the vetoes are stated only when no COMPOUNDRULE is set.
- Compound.WholeForbidden: states only that a refusal implies l is within the word. Its result is not tied to a specification function.
- Extensions.IndexOf: the char[] kind is the corrected IndexOfArray, not the as-written window that misses the last two candidate starts (Findings row Extensions.cs:60-69).
- DicLines.FindSlash: a leading `/` is treated as the corrected split treats it, not as the as-written loop that stops there (Findings row HashMgr.cs:466-479).
- DicLines.SplitDicLine: uses the corrected FindSlash, as above.
- HashMgr.HashTable.LoadLines: splits lines with the corrected SplitDicLine, as above.
- HashMgr.HashTable.LoadAt: splits its line with the corrected SplitDicLine, as above.
- HashMgr.HashTable.LoadWords: splits lines with the corrected SplitDicLine, as above.
- HashMgr.HashTable.LoadTables: uses the corrected sizing guard (Findings row HashMgr.cs:401-405) and the corrected split, so the wrapped sum of the code as written is not what it promises.
- HashMgr.HashTable.LoadDic: uses the corrected sizing guard and split, as LoadTables.
- FlagCodec.DecodeFlag: a negative NUM flag is reported and zeroed (the corrected NumFlag), where the code as written wraps it to an unrelated flag (Findings row AffixMgr.cs:3488-3495).
- FlagCodec.DecodeFlagsInto: its NUM entries use the corrected NumFlag, where the List overload as written (AffixMgr.cs:3630 and 3642) checks only the upper bound.
- AffixCheck.SfxCheckTwoSfx: passes the stem length with its strip to the inner suffix check; the as-written length is AffixCheck.TwoSfxAsWrittenMisses (Findings row SfxEntry.cs:264-273).
- AffixCheck.SuffixCheckTwo: uses the corrected SfxCheckTwoSfx, as above.
- AffixCheck.PfxCheckTwoSfx: uses the corrected SfxCheckTwoSfx, as above.
- AffixCheck.PrefixCheckTwo: uses the corrected SfxCheckTwoSfx, as above.
- AffixCheck.AffixCheck: uses the corrected SfxCheckTwoSfx, as above.
- Suggest.TwoWords: a word below 3 characters returns good, not false as written (Findings row SuggestMgr.cs:617-618).
- CompoundVetoes.CpdRep: searches only the first wl characters, where the code as written throws on an occurrence past wl (Findings row AffixMgr.cs:1098-1107).
- Compound.SubVetoes: uses the corrected CpdRep (the call at AffixMgr.cs:1982), as above.
- Compound.CompoundCheck: uses the corrected CpdRep, as above.
- ByteView.Bytes.Contains: the corrected search; the as-written one is ByteView.ContainsPastView (Findings row Bytes.cs:37-48).
- SpellFront.CleanWord: counts over the cleaned word, not the as-written window (Findings row Hunspell.cs:210).
- Phonet.Replace: uses the corrected "^^" test FindCarets, where the code as written never sees "^^" (Findings row phonetable.cs:229-230).
- Phonet.TryRule: uses the corrected "^^" test, as Replace.
- Phonet.AtLetter: uses the corrected "^^" test, as Replace.
- Phonet.PhoneTable.Phonet: uses the corrected "^^" test, as Replace. Its no-throw clause needs a Terminated table, which the PHONE parser never builds (Findings row phonetable.cs:60-63).
- Suggest.ForgotChar: the suggestInnerTimer is not modelled: neither its Restart (SuggestMgr.cs:567-568), nor checkword giving 0 once it expires (SuggestMgr.cs:1149), nor the early returns on expiry (SuggestMgr.cs:584 and 593). The checker is a pure function here, so the model always finishes both rows.
- AffixCheck.TwoTry: calls the corrected SfxCheckTwoSfx directly, so a two-level suffix is found through a stem with strip where the code as written misses it (Findings row SfxEntry.cs:264-273).
- AffixCheck.TwoZero: reaches the corrected SfxCheckTwoSfx through TwoTry, as above.
- AffixCheck.TwoStep: reaches the corrected SfxCheckTwoSfx through TwoTry, as above.
- AffixCheck.TwoWalk: reaches the corrected SfxCheckTwoSfx through TwoStep, as above.
- AffixCheck.TwoIndexed: reaches the corrected SfxCheckTwoSfx through TwoWalk, as above.
- AffixCheck.PfxTwoTry: reaches the corrected SfxCheckTwoSfx through PfxCheckTwoSfx, as above.
- AffixCheck.PfxTwoZero: reaches the corrected SfxCheckTwoSfx through PfxTwoTry, as above.
- AffixCheck.PfxTwoStep: reaches the corrected SfxCheckTwoSfx through PfxTwoTry, as above.
- AffixCheck.PfxTwoWalk: reaches the corrected SfxCheckTwoSfx through PfxTwoStep, as above.
- AffixCheck.PfxTwoIndexed: reaches the corrected SfxCheckTwoSfx through PfxTwoWalk, as above.
- SuggestCheck.Affixed: reaches the corrected SfxCheckTwoSfx through AffixCheck.SuffixCheckTwo and AffixCheck.PrefixCheckTwo, as above.
- SuggestCheck.Root: reaches the corrected SfxCheckTwoSfx through Affixed, as above.
- SuggestCheck.PlainCheck: reaches the corrected SfxCheckTwoSfx through Root, as above.
- SuggestCheck.CheckWord: reaches the corrected SfxCheckTwoSfx through PlainCheck, and the corrected CpdRep and SfxCheckTwoSfx through Compound.CompoundCheck, as above.
- CompoundVetoes.CandidateCheck: reaches the corrected SfxCheckTwoSfx through AffixCheck.AffixCheck, as above.
- CompoundVetoes.RepEntryHit: reaches the corrected SfxCheckTwoSfx through CandidateCheck, as above.
- CompoundVetoes.CpdWordPair: reaches the corrected SfxCheckTwoSfx through CandidateCheck, as above.
- CompoundVetoes.CpdRepAsWritten: its candidates are checked through CandidateCheck, so it reaches the corrected SfxCheckTwoSfx, as above; only the search window is as written.
- Compound.FlaggedFirst: reaches the corrected SfxCheckTwoSfx through AffixCheck.SuffixCheckTwo, as above.
- Compound.BoundaryFirst: reaches the corrected SfxCheckTwoSfx through AffixCheck.SuffixCheckTwo, as above.
- Compound.FirstReading: reaches the corrected SfxCheckTwoSfx through FlaggedFirst and BoundaryFirst, as above.
- Compound.FirstMember: reaches the corrected SfxCheckTwoSfx through FirstReading, as above.
- Compound.Vetoes: reaches the corrected SfxCheckTwoSfx through CompoundVetoes.CpdWordPair and the candidate check of CompoundVetoes.CpdRep, as above. CpdRep is called there on the whole word, where its corrected window and the as-written one agree.
- Compound.SecondRoot: reaches the corrected SfxCheckTwoSfx through Vetoes, as above.
- Compound.SecondAffixed: reaches the corrected SfxCheckTwoSfx through AffixCheck.AffixCheck and Vetoes, as above.
- Compound.WholeForbidden: also reaches the corrected SfxCheckTwoSfx through AffixCheck.AffixCheck, as above.
- Compound.SecondCompound: reaches the corrected CpdRep (the call at AffixMgr.cs:1982) and the corrected SfxCheckTwoSfx through SubVetoes, as above.
- Compound.SecondMember: reaches the corrected CpdRep and SfxCheckTwoSfx through SecondCompound, SecondRoot and SecondAffixed, as above.
- Compound.SecondMembers: reaches the corrected CpdRep and SfxCheckTwoSfx through SecondMember, as above.
- Compound.TrySplit: reaches the corrected CpdRep and SfxCheckTwoSfx through FirstMember and SecondMembers, as above.
- Compound.SplitAt: reaches the corrected CpdRep and SfxCheckTwoSfx through TrySplit, as above.
- AffixCheck.InnerQuery: is the corrected inner query; InnerQueryAsWritten is the query as written.
- AffixCheck.TwoHitFound: is stated of specification functions that use the corrected inner suffix query, as above; it is not stated of the as-written query.
- AffixCheck.TwoIndexedFound: is stated of specification functions that use the corrected inner suffix query, as above; it is not stated of the as-written query.
- AffixCheck.TwoIndexedSpecNone: is stated of specification functions that use the corrected inner suffix query, as above; it is not stated of the as-written query.
- AffixCheck.PrefixTwoHitFound: is stated of specification functions that use the corrected inner suffix query, as above; it is not stated of the as-written query.
- AffixCheck.AffixHitFound: is stated of specification functions that use the corrected inner suffix query, as above; it is not stated of the as-written query.
- CompoundVetoes.NoHitUpTo: is stated of specification functions that use the corrected inner suffix query, as above; it is not stated of the as-written query.
- CompoundVetoes.NoPairStep: is stated of specification functions that use the corrected inner suffix query, as above; it is not stated of the as-written query.
- CompoundVetoes.NoPairAll: is stated of specification functions that use the corrected inner suffix query, as above; it is not stated of the as-written query.
- CompoundVetoes.PairAt: is stated of specification functions that use the corrected inner suffix query, as above; it is not stated of the as-written query.
- SuggestCheck.AcceptedRoot: is stated of specification functions that use the corrected inner suffix query, as above; it is not stated of the as-written query.
- SuggestCheck.BareWordAccepted: is stated of specification functions that use the corrected inner suffix query, as above; it is not stated of the as-written query.
- HashMgr.HashTable.AddReps: the capacity preallocation of reptable (MORPH_PHON_RATIO) is left out; it changes no contents.

## Findings

| source | as written | input that shows it | evidently intended | confidence | as-written member | corrected member |
|---|---|---|---|---|---|---|
| SfxEntry.cs:264-273 | check_twosfx passes the stem length without the re-inserted strip to the inner suffix_check, so the strip's last characters are not searched | "miks" with inner suffix "ke", outer suffix "s" stripping "e", dictionary "mi" | pass the length of the stem with its strip, as the PfxEntry paths do | high, not executed | AffixCheck.TwoSfxAsWrittenMisses | AffixCheck.TwoSfxCorrectedFinds |
| Bytes.cs:37-48 | Contains checks the loop bound before Array.IndexOf moves the position, so a candidate past the view's end is compared | data "abc", view "ab", value "bc" | only matches lying inside the view count | high, not executed | ByteView.ContainsPastView | ByteView.Bytes.Contains |
| AffixMgr.cs:1098-1107 | cpdrep_check searches the whole word but builds the candidate from its first wl characters, so an occurrence past wl gives a negative copy length and throws | REP pattern "cd", word "abcd", wl 2 | search only the first wl characters | medium, not executed | CompoundVetoes.RepOccurrencePastLength | CompoundVetoes.CpdRep |
| HashMgr.cs:401-405 | load_tables adds the word count to the extra room in `int` and guards the wrapped sum | word count int.MaxValue, no current table | guard the true sum | medium, not executed | DicLines.PlanWrapsNegative | DicLines.TablePlanSound |
| HashMgr.cs:466-479 | a `/` at position 0 moves the search position to 1 without searching again, so the loop stops there | line "/abc/XY" | a leading slash is a word character and the search resumes after it | medium, not executed | DicLines.LeadingSlashAsWritten | DicLines.SplitLeadingSlash |
| Extensions.cs:60-69 | the char[] branch of IndexOf searches a window two positions shorter than the candidate starts | s "ab", value "b" | the window of the string branch, finding every occurrence | high, not executed | Extensions.IndexOfArrayMissesTail | Extensions.IndexOfArray |
| AffixMgr.cs:3488-3495 | the NUM branch checks only the upper bound before the cast to ushort, so a negative number wraps to an unrelated flag | flag text "-65000" | report numbers below 0 as the array overload of decode_flags does | high, not executed | FlagCodec.NegativeFlagAliases | FlagCodec.NumFlag |
| phonetable.cs:229-230 | Array.IndexOf over the rule's characters searches for the string "^^", which equals no character, so the "^^" branch is dead | rule "A^^" | test for two consecutive carets after the first character | high, not executed | Phonet.CaretsMissed | Phonet.FindCarets |
| Hunspell.cs:210 | cleanword's counting loop runs to nl rather than q + nl, so leading blanks shift the window and the tail is not counted | " AB" | count over the cleaned word, giving ALLCAP | high, not executed | SpellFront.CleanCapMissesTail | SpellFront.AllUpperClass |
| SuggestMgr.cs:617-618 | twowords returns false for a word shorter than 3 characters, whatever good was | "ok" after a good suggestion | return good | medium, not executed | Suggest.TwoWordsAsWrittenDropsGood | Suggest.TwoWordsGood |
| Utils.cs:129-146 | line_uniq_app joins all lines without dropping repeats | "1\n2\n1" | each line once, giving the alternatives 1 and 2 | high, not executed | ListUtils.LineUniqAppRepeats | ListUtils.LineUniqAppCorrectedOnce |
| AffixMgr.cs:1343 | a negative len becomes word.Length - i and is then read as an end position | "aaaa" from 2 with vowels "a" | the remainder word[i..], giving 2 | medium, not executed | CompoundRules.SyllablesDefaultLength | CompoundRules.SyllablesFrom |
| phonetable.cs:60-63 | the scan of the rules for a letter stops only at a rule for another letter or an empty one, and the PHONE parser (AffixMgr.cs:3896-3934) appends no empty final pair, so a word whose letter's rules end the table and do not fit steps past the table | rules "AB" -> "X", word "AC" | the parser appends an empty final pair, as the C original does, so every scan stops | high, not executed | Phonet.ParsedTableThrows | Phonet.TerminatedTableCodes |
