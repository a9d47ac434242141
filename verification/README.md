# Verified models of ICU text algorithms

This project models six parts of ICU4C in Dafny and proves what each of them promises.

- **Message patterns** (`Message*.dfy`). The recursive-descent parser that turns a message pattern into a flat list of
  parts. `MessageSpec` is the grammar as functions of the text; `MessagePatterns.MessagePattern` is the parser object
  with its index, its growing buffer, its back-patching and its flags, proved to record exactly the parts of the grammar.
  The theorems are about every pattern that parses: places, nesting, and that auto-quoting is sound.
- **Byte tries** (`Trie*.dfy`). An abstract trie, the predicate `Lays` that says when bytes serialize it, the resumable
  reader, the iterator with its packed stack, and the byte-level writer.
- **BMPSet** (`Bmp*.dfy`). The byte table, the two vertical bit matrices and the restricted binary searches, proved to
  agree with the inversion list; spans over UTF-16, and over UTF-8 as section 4 of RFC 3629 defines it.
- **Dictionary segmentation** (`Dict*.dfy`). The trie-driven matcher, the candidate cache and three-word lookahead of the
  Lao, Burmese and Khmer engines, and the shortest-path segmentation for Chinese and Japanese with its normalization and
  its maps back to native indexes.
- **CanonicalIterator** (`Canon*.dfy`). The constrained permutations, the search for equivalents over an abstract NFD, the
  odometer, and NFD itself as Unicode Standard Annex #15 defines it, for which completeness of the search is decided.
- **Caches** (`CacheProtocol.dfy`). Look up under a lock, load outside it, look again under it; as steps of any number of
  threads, with the lock, each read and each write a step of its own. `DeleteLocked` is the list formatter's order,
  `DeleteUnlocked` that of the other two.

`dafny verify dfyconfig.toml` checks the project.

Where the code and its documentation disagree the model follows the code:

- writeDeltaTo() stores two bytes of a long delta in the same array element (source/common/bytestriebuilder.cpp:484-496).
  `TrieWriter.DeltaRoundTrip` says exactly which deltas survive, `TrieWriter.LongDeltaFails` gives one that does not.
- The dictionary matcher reports as prefix also the character that did not match (source/common/dictionarydata.cpp:117-150),
  although the header calls it the length of the match (source/common/dictionarydata.h:85-87). `DictMatcher.PrefixIsMatch`
  says exactly when the two are equal, `DictMatcher.PrefixCountsMiss` gives a text on which they are not.
- An unmapped character becomes -1, which the trie reader takes for byte 0xFF, the byte of U+200D
  (source/common/dictionarydata.cpp:91-105, source/common/bytestrie.cpp:186-188): see `DictMatcher.AcceptsExactly` and
  `DictMatcher.JoinerConfusion`.
- The bulk form of next() reads plain chars and the one-byte form does not (source/common/bytestrie.cpp:206-311):
  `TrieReader.BulkAgreesWithSingle` says exactly when they agree, `TrieReader.BulkMissesHighByte` gives a key on which
  they do not.
- A step that fails inside a pending linear-match node clears the position but not the remaining match length
  (source/common/bytestrie.cpp:189-201). An iterator made from such a cursor appends bytes from a null pointer, which is
  an illegal argument (source/common/charstr.cpp:48-55), and moves its position on all the same. `TrieReader.StopInsideNode`
  gives such a cursor, `TrieReader.RemainingAtStop` and `TrieIterator.Iterator.From` say exactly when there is one.
- A stack entry of the iterator has 16 bits for the length of the string (source/common/bytestrieiterator.cpp:178-199).
  The builder refuses longer keys (source/common/bytestriebuilder.cpp:94-98), the reader does not;
  `TrieIterator.Iterator.constructor` says for which tries that is enough, `TrieIterator.LengthKept` why.
- In the CJK engine `is_prev_katakana` is reset in every turn (source/common/dictbe.cpp:1329-1332), so a Katakana edge
  starts at every Katakana character: `DictCjk.EdgesInsideRuns`, `DictCjk.SecondKatakanaStarts`.
- The same step enters the cost at a code unit index and prev at a character index (source/common/dictbe.cpp:1342-1345).
  `DictCjk.KatakanaStepExact` and `DictCjk.AlignedMeaning` say exactly when these are the same place,
  `DictCjkExact.FoundRightExactly` that a cheapest segmentation is found for all dictionaries exactly then, and
  `DictCjk.KatakanaMissed` gives a text on which it is not. isKatakana() also drops the high bits of supplementary
  characters (source/common/dictbe.cpp:1111-1114). How dear words may be is said by `DictCjkPrices.FoundBound`, with
  `DictCjk.DearWordsTaken` as an input beyond that.
- The CJK engine promises breaks in ascending order (source/common/dictbe.cpp:1384-1386), but all characters of a
  normalized fragment map to its start. `DictCjkOrder.AscendExactly` says for which input the order is strict,
  `DictCjk.BreakTwice` gives a character that breaks it.
- CanonicalIterator promises all canonically equivalent strings (source/common/caniter.cpp:24-25).
  `CanonComplete.FindsAllExactly` says for which data it finds them, `CanonComplete.TibetanMissed` gives two strings that
  it does not find.
- getEquivalents() copies a segment into 256 code units (source/common/caniter.cpp:353-355) and setSource() fails on
  longer ones: `CanonIterator.CanonicalIterator.SetSource`, `CanonIterator.LongSegmentFails`.

## Model

| member | source | states |
|---|---|---|
| `MessageAutoQuote.AutoQuoteSound` | source/common/messagepattern.cpp:341-356 | for every pattern that parses, in either apostrophe mode and from any entry point, the auto-quoted text parses in DOUBLE_REQUIRED mode to the same parts, each index shifted by the insertions before it and each INSERT_CHAR now a one-unit SKIP_SYNTAX; quoting again changes nothing |
| `MessageText.LiteralTextKept` | source/common/messagepattern.cpp:1203-1227 | in every message and sub-message, the literal units and the arguments left when syntax is skipped are the same, in the same order, before and after auto-quoting |
| `MessagePlaces.ParsePlaced` | source/common/messagepattern.cpp:431-883 | every part of a successful parse lies within the message, indexes never decrease, INSERT_CHARs are strictly ordered, and lengths and values fit uint16_t and int16_t |
| `MessageNesting.ParseNested` | source/common/messagepattern.cpp:1113-1119 | every MSG_START and ARG_START names its own limit part, with the same value; the intervals nest or are disjoint; every limit part belongs to one start |
| `MessageNesting.ParseHasShape` | source/common/messagepattern.cpp:431-883 | the parts of every successful parse follow the documented grammar of parts for its entry point |
| `MessageAutoQuote.ParseCoversText` | source/common/messagepattern.cpp:431-883 | a successful parse has read the whole pattern |
| `MessageAutoQuote.SlotIrrelevant` | source/common/messagepattern.cpp:1087-1098 | what an earlier parse left in the first slot of the parts buffer never changes a successful parse |
| `MessageText.ParseMessages` | source/common/messagepattern.cpp:431-534 | every MSG_START of a successful parse begins a well-formed message that ends at its limit part |
| `MessageText.AppendSubMessageWithoutSkipSyntax` | source/common/messagepattern.cpp:1203-1227 | appends exactly the visible pieces of the message that starts at msgStart, and stops at that message's own limit part |
| `MessageText.AppendReducedApostrophes` | source/common/messagepattern.cpp:1179-1200 | appends the text with each apostrophe pair reduced to one and single apostrophes dropped |
| `MessagePatterns.MessagePattern.ParseMessage` | source/common/messagepattern.cpp:431-534 | records exactly the parts that the grammar function Message gives, returns its index or its error, keeps the flags true of the parts; terminates by the unread text |
| `MessagePatterns.MessagePattern.ParseItems` | source/common/messagepattern.cpp:445-526 | the scanning loop: records the parts of the message text up to its terminator |
| `MessagePatterns.MessagePattern.ParseItem` | source/common/messagepattern.cpp:445-526 | one turn of that loop: an item with its parts, or the end of the message text |
| `MessagePatterns.MessagePattern.FinishMessage` | source/common/messagepattern.cpp:510-533 | records MSG_LIMIT and back-patches MSG_START, or reports unmatched braces |
| `MessagePatterns.MessagePattern.EndMessage` | source/common/messagepattern.cpp:510-533 | records MSG_LIMIT and the limit index of MSG_START; everything between them is kept |
| `MessagePatterns.MessagePattern.ParseApostrophe` | source/common/messagepattern.cpp:453-503 | records the parts for one apostrophe, doubled, quoting or literal |
| `MessagePatterns.MessagePattern.ParseQuoted` | source/common/messagepattern.cpp:473-495 | records the parts of quoted text up to its closing apostrophe or the end of the pattern |
| `MessagePatterns.MessagePattern.ParseArg` | source/common/messagepattern.cpp:536-654 | records exactly the parts of one argument; ARG_START and ARG_LIMIT agree |
| `MessagePatterns.MessagePattern.ParseArgHead` | source/common/messagepattern.cpp:545-589 | name and type of an argument, or the error the grammar gives |
| `MessagePatterns.MessagePattern.ParseArgType` | source/common/messagepattern.cpp:590-639 | the argument type, patched into ARG_START |
| `MessagePatterns.MessagePattern.RecordType` | source/common/messagepattern.cpp:628-632 | patches the type into ARG_START and records the name of a simple type |
| `MessagePatterns.MessagePattern.FinishArg` | source/common/messagepattern.cpp:651-653 | records ARG_LIMIT and back-patches ARG_START |
| `MessagePatterns.MessagePattern.ParseName` | source/common/messagepattern.cpp:552-576 | records ARG_NUMBER or ARG_NAME and sets the matching flag |
| `MessagePatterns.MessagePattern.SetArgType` | source/common/messagepattern.cpp:628-629 | changes the type of one ARG_START and nothing else |
| `MessagePatterns.MessagePattern.ParseStyle` | source/common/messagepattern.cpp:640-649 | records the parts of the style that the argument type calls for |
| `MessagePatterns.MessagePattern.ParseSimpleStyle` | source/common/messagepattern.cpp:656-697 | records the style text up to the matching brace, outside quoted text |
| `MessagePatterns.MessagePattern.ParseChoiceStyle` | source/common/messagepattern.cpp:699-765 | records exactly the parts of all alternatives |
| `MessagePatterns.MessagePattern.ParseAlternative` | source/common/messagepattern.cpp:713-750 | records one (number, separator, message) triple |
| `MessagePatterns.MessagePattern.ParseChoiceHead` | source/common/messagepattern.cpp:714-745 | records the number and the separator of one alternative |
| `MessagePatterns.MessagePattern.ParsePluralOrSelectStyle` | source/common/messagepattern.cpp:767-883 | records exactly the parts of all selectors and their messages, and requires "other" |
| `MessagePatterns.MessagePattern.ParseTurn` | source/common/messagepattern.cpp:796-881 | records an offset, or one selector with its message, and reports whether it is "other" |
| `MessagePatterns.MessagePattern.ParseSelector` | source/common/messagepattern.cpp:796-876 | records one selector or offset, or gives the error of the grammar |
| `MessagePatterns.MessagePattern.ParseExplicitSelector` | source/common/messagepattern.cpp:797-813 | records an explicit-value selector and its number |
| `MessagePatterns.MessagePattern.ParseWordSelector` | source/common/messagepattern.cpp:814-865 | records a selector word, or handles "offset:" |
| `MessagePatterns.MessagePattern.RecordWord` | source/common/messagepattern.cpp:853-876 | records a selector word if a sub-message follows it |
| `MessagePatterns.MessagePattern.ParseOffset` | source/common/messagepattern.cpp:833-852 | records the value of "offset:" |
| `MessagePatterns.MessagePattern.ParseDouble` | source/common/messagepattern.cpp:929-1001 | records one ARG_INT or ARG_DOUBLE; small integers exactly when the digits fit int16_t |
| `MessagePatterns.MessagePattern.SmallInteger` | source/common/messagepattern.cpp:966-978 | the digit loop accepts exactly the digit strings whose value fits, and computes that value |
| `MessagePatterns.ParseArgNumber` | source/common/messagepattern.cpp:885-927 | the value of a digit string without leading zeros that fits, or name, or invalid, also when int32_t wraps around |
| `MessagePatterns.NamedType` | source/common/messagepattern.cpp:613-627 | the type that a name selects, compared without regard to case |
| `MessagePatterns.MessagePattern.AddPart` | source/common/messagepattern.cpp:1100-1111 | appends one part narrowed to uint16_t and int16_t; keeps all earlier parts when the buffer doubles |
| `MessagePatterns.MessagePattern.AddLimitPart` | source/common/messagepattern.cpp:1113-1119 | appends a limit part and sets the limit index of its start, and nothing else |
| `MessagePatterns.MessagePattern.AddArgDoublePart` | source/common/messagepattern.cpp:1121-1144 | appends ARG_DOUBLE with the next index, or reports that there are too many |
| `MessagePatterns.MessagePattern.AddInsertChar` | source/common/messagepattern.cpp:456-459 | appends INSERT_CHAR and sets needsAutoQuoting |
| `MessagePatterns.MessagePattern.AddName` | source/common/messagepattern.cpp:554-571 | appends a name or number and sets its flag |
| `MessagePatterns.MessagePattern.SkipWhiteSpace` | source/common/messagepattern.cpp:1003-1009 | the first index at or after the given one that is not white space |
| `MessagePatterns.MessagePattern.SkipIdentifier` | source/common/messagepattern.cpp:1011-1017 | the first index at or after the given one that is not part of an identifier |
| `MessagePatterns.MessagePattern.SkipDouble` | source/common/messagepattern.cpp:1019-1031 | the first index at or after the given one that is not part of a number |
| `MessagePatterns.MessagePattern.SkipArgType` | source/common/messagepattern.cpp:591-595 | the first index at or after the given one that is not an ASCII letter |
| `MessagePatterns.MessagePattern.PreParse` | source/common/messagepattern.cpp:403-419 | empties the parts and the flags and keeps the buffer |
| `MessagePatterns.MessagePattern.Parse` | source/common/messagepattern.cpp:265-271 | the parts are those of the grammar, placed, nested and shaped as stated above, or the error is the grammar's |
| `MessagePatterns.MessagePattern.ParseChoice` | source/common/messagepattern.cpp:273-280 | the same for a top-level choice style |
| `MessagePatterns.MessagePattern.ParsePlural` | source/common/messagepattern.cpp:282-289 | the same for a top-level plural style |
| `MessagePatterns.MessagePattern.ParseSelect` | source/common/messagepattern.cpp:291-298 | the same for a top-level select style |
| `MessagePatterns.MessagePattern.AutoQuoteApostropheDeep` | source/common/messagepattern.cpp:341-356 | the pattern with the character of every INSERT_CHAR part inserted, also when the flag lets it skip the loop |
| `TrieModel.CursorMeaning` | source/common/bytestrie.cpp:66-76 | a cursor exists after bytes s exactly when some key starts with s; it has a value exactly when s is a key, and then that key's value |
| `TrieModel.StepEntries` | source/common/bytestrie.cpp:148-178 | the sub-trie for one byte stores exactly the keys that start with it, without it |
| `TrieModel.SortedEntries` | source/common/bytestrieiterator.cpp:99-168 | the entries of a trie are in strictly ascending byte order, without repeats |
| `TrieReader.BytesTrie.Current` | source/common/bytestrie.cpp:66-76 | reports whether and how the cursor carries a value |
| `TrieReader.BytesTrie.BranchNext` | source/common/bytestrie.cpp:78-146 | after the binary and linear search the cursor is at the child for the byte, or stopped if there is none |
| `TrieReader.BytesTrie.Halve` | source/common/bytestrie.cpp:85-95 | halving keeps the child that the byte selects |
| `TrieReader.BytesTrie.ScanList` | source/common/bytestrie.cpp:96-146 | the linear search ends at the child for the byte, or stops if there is none |
| `TrieReader.BytesTrie.TakeEdge` | source/common/bytestrie.cpp:101-133 | following an edge, final value or jump, leads to its child |
| `TrieReader.BytesTrie.NextImpl` | source/common/bytestrie.cpp:148-178 | the cursor moves to exactly the sub-trie for the byte; after a stop no match length remains |
| `TrieReader.BytesTrie.Next` | source/common/bytestrie.cpp:180-204 | the same from any cursor, also inside a linear-match node or after a mismatch; a mismatch inside a pending node leaves the remaining match length as it was, any other stop leaves -1 |
| `TrieReader.BytesTrie.First` | source/common/unicode/bytestrie.h:163-169 | the same from the root |
| `TrieReader.BytesTrie.NextEach` | source/common/bytestrie.cpp:180-204 | any run of bytes leaves the cursor at the sub-trie for all of them, with the remaining match length of the single steps |
| `TrieReader.BytesTrie.NextString` | source/common/bytestrie.cpp:206-311 | the bulk form leaves the same cursor and result as following the units one by one, and -1 as remaining match length after a stop, unless the first unit missed a pending node |
| `TrieReader.BytesTrie.MatchPending` | source/common/bytestrie.cpp:218-263 | the rest of a linear-match node is matched as single steps would |
| `TrieReader.BytesTrie.FollowNodes` | source/common/bytestrie.cpp:264-309 | node by node, as single steps would |
| `TrieReader.BulkAgreesWithSingle` | source/common/bytestrie.cpp:206-311 | bulk and one-byte forms agree exactly if no unit is negative as a char, or no key starts with the bytes |
| `TrieReader.BulkMissesHighByte` | source/common/bytestrie.cpp:206-311 | in a trie with the key 61 62 FF the one-byte form finds it, the bulk form does not |
| `TrieReader.RemainingAtStop` | source/common/bytestrie.cpp:180-204 | after a run of single steps that stops, a match length remains exactly if the step that stopped was inside a pending linear-match node |
| `TrieReader.BulkStopAgrees` | source/common/bytestrie.cpp:218-263 | after a stop both forms leave the same remaining match length exactly if single steps leave none or the first unit missed a node already pending |
| `TrieReader.StopInsideNode` | source/common/bytestrie.cpp:189-201 | on a trie for "abc", stepping over "ax" leaves a remaining match length of 1 and no position; the bulk form leaves -1 |
| `TrieReader.BytesTrie.GetValue` | source/common/unicode/bytestrie.h:206-211 | the value stored at the cursor |
| `TrieReader.BytesTrie.GetNextBytes` | source/common/bytestrie.cpp:385-416 | delivers the bytes of NextKeys, and their number |
| `TrieReader.BytesTrie.GetNextBranchBytes` | source/common/bytestrie.cpp:418-431 | appends the bytes of a branch in ascending order |
| `TrieReader.NextKeysExact` | source/common/bytestrie.cpp:385-431 | those bytes are ascending without repeats, and exactly the ones for which next() would not report NO_MATCH |
| `TrieIterator.Iterator.constructor` | source/common/bytestrieiterator.cpp:23-43 | all entries of the trie are pending; the iterator is valid exactly if no two keys diverge behind more than 0xffff bytes |
| `TrieIterator.Iterator.From` | source/common/bytestrieiterator.cpp:45-74 | an error exactly if the cursor stopped inside a pending linear-match node; otherwise all entries below the cursor are pending, and the iterator is valid exactly if no two of them diverge behind more than 0xffff bytes |
| `TrieIterator.Iterator.Reset` | source/common/bytestrieiterator.cpp:81-94 | everything is pending again |
| `TrieIterator.Iterator.HasNext` | source/common/bytestrieiterator.cpp:97-97 | true exactly if something is pending |
| `TrieIterator.Iterator.Next` | source/common/bytestrieiterator.cpp:99-168 | delivers the first pending entry and leaves exactly the others pending |
| `TrieIterator.Iterator.Deliver` | source/common/bytestrieiterator.cpp:131-167 | from a node: delivers its first entry, and the stack and string describe exactly the rest |
| `TrieIterator.Iterator.DeliverValue` | source/common/bytestrieiterator.cpp:133-144 | a value node: its entry is delivered, and the position stays only if more can follow |
| `TrieIterator.Iterator.PassLinear` | source/common/bytestrieiterator.cpp:157-166 | a linear-match node: its bytes join the string, or the string is cut at the length limit and delivered |
| `TrieIterator.Iterator.BranchNext` | source/common/bytestrieiterator.cpp:178-208 | enters the first child and pushes exactly the other children |
| `TrieIterator.LengthKept` | source/common/bytestrieiterator.cpp:178-199 | the string length packed into a stack entry is read back if and only if it is at most 0xffff |
| `TrieIterator.Iterator.DeliverAll` | source/common/bytestrieiterator.cpp:99-168 | delivers all pending entries in order, then ends |
| `TrieIterator.Iterator.TruncateAndStop` | source/common/bytestrieiterator.cpp:170-176 | delivers the current string with value -1 and stops |
| `TrieWriter.ValueRoundTrip` | source/common/bytestriebuilder.cpp:424-457 | every int32_t value and final flag is read back, and the reader skips exactly the bytes written |
| `TrieWriter.DeltaRoundTrip` | source/common/bytestriebuilder.cpp:468-499 | reading a delta skips exactly the bytes written and lands on the target if and only if the delta is encodable, which every delta up to kMaxThreeByteDelta is |
| `TrieWriter.LongDeltaFails` | source/common/bytestriebuilder.cpp:484-496 | a delta of 0x100000 is read back wrong whatever the unset bytes hold |
| `TrieWriter.LongestDelta` | source/common/bytestriebuilder.cpp:468-499 | a delta lands on its target whatever the unset bytes hold if and only if it is at most kMaxThreeByteDelta |
| `TrieWriter.ValueBytes` | source/common/bytestriebuilder.cpp:424-457 | the branches of writeValueAndFinal() produce the encoded bytes |
| `TrieWriter.FillShort` | source/common/bytestriebuilder.cpp:440-454 | lead byte and tail of the forms of two to four bytes |
| `TrieWriter.DeltaBytes` | source/common/bytestriebuilder.cpp:468-499 | the branches of writeDeltaTo() produce the encoded bytes |
| `TrieWriter.Buffer.EnsureCapacity` | source/common/bytestriebuilder.cpp:372-397 | growth keeps all bytes written so far |
| `TrieWriter.Buffer.WriteByte` | source/common/bytestriebuilder.cpp:399-407 | prepends one byte and returns the new length |
| `TrieWriter.Buffer.Write` | source/common/bytestriebuilder.cpp:409-417 | prepends the bytes and returns the new length |
| `TrieWriter.Buffer.WriteValueAndFinal` | source/common/bytestriebuilder.cpp:424-457 | prepends the encoded value |
| `TrieWriter.Buffer.WriteDeltaTo` | source/common/bytestriebuilder.cpp:468-499 | prepends the encoded distance to the target |
| `TrieWriter.SetThenGet` | source/common/bytestriebuilder.cpp:88-109 | a string that was set is got back, whatever is appended later |
| `TrieWriter.CompareMeaning` | source/common/bytestriebuilder.cpp:111-125 | the comparison is byte-wise lexicographic order, zero exactly for equal strings |
| `BmpSets.BMPSet.constructor` | source/common/bmpset.cpp:27-49 | establishes the documented invariants of all four tables for every inversion list |
| `BmpSets.BMPSet.Contains` | source/common/bmpset.cpp:276-301 | for every int32_t c: membership is the parity of the smallest i with c < list[i], false out of range |
| `BmpSets.BMPSet.FindCodePoint` | source/common/bmpset.cpp:242-274 | the smallest i in lo..hi with c < list[i], or hi |
| `BmpSets.BMPSet.ContainsSlow` | source/common/bmpset.h:155-157 | a restricted search whose bounds enclose c gives membership |
| `BmpSets.BMPSet.InitStarts` | source/common/bmpset.cpp:33-45 | each entry is the place of the start of its 4k block |
| `BmpSets.BMPSet.NextStart` | source/common/bmpset.cpp:42-44 | one of them, searched from the one before |
| `BmpTables.Set32x64Bits` | source/common/bmpset.cpp:62-115 | sets exactly the positions start..limit of the matrix |
| `BmpSets.BMPSet.InitBits` | source/common/bmpset.cpp:117-198 | the tables agree with the list: bytes, bits, and uniform or mixed blocks |
| `BmpSets.BMPSet.InitAscii` | source/common/bmpset.cpp:121-135 | asciiBytes[] agrees with the list below 0x80; the cursor stands at the range that goes on |
| `BmpSets.BMPSet.InitTwoByte` | source/common/bmpset.cpp:137-151 | table7FF[] agrees with the list from 0x80 to 0x7FF |
| `BmpSets.BMPSet.InitBlocks` | source/common/bmpset.cpp:153-197 | every block from U+0800 on is uniform as marked, or marked mixed |
| `BmpSets.BMPSet.MarkRange` | source/common/bmpset.cpp:160-185 | one range keeps that true up to its end |
| `BmpSets.BMPSet.OverrideIllegal` | source/common/bmpset.cpp:200-240 | illegal bytes, bits and blocks give the answer for U+FFFD; all others are kept |
| `BmpSets.BMPSet.OverrideSurrogates` | source/common/bmpset.cpp:228-238 | replaces exactly the two bits of lead byte 0xED in the second half |
| `BmpSets.BMPSet.LookUp` | source/common/bmpset.cpp:278-291 | the three tables give membership for BMP code points that are not surrogates |
| `BmpSets.BMPSet.Span` | source/common/bmpset.cpp:303-393 | the end of the span as defined on code points |
| `BmpText.SpanIsLongest` | source/common/bmpset.h:43-48 | that span is the longest prefix whose code points all satisfy the condition |
| `BmpSets.BMPSet.SpanBack` | source/common/bmpset.cpp:395-488 | the start of the backward span as defined on code points |
| `BmpText.SpanStartIsLongest` | source/common/bmpset.h:50-55 | that span is the longest suffix, cut at a code point boundary, whose code points, as forward decoding sees them, all satisfy the condition |
| `BmpSets.BMPSet.SpanUTF8` | source/common/bmpset.cpp:490-649 | the end of the span as defined on UTF-8 characters and ill-formed bytes; no byte beyond the string is read |
| `BmpText.SpanIsLongest8` | source/common/bmpset.h:57-62 | that span is the longest prefix whose characters and ill-formed bytes, each counted as U+FFFD, all satisfy the condition |
| `BmpSets.BMPSet.CutTruncated` | source/common/bmpset.cpp:524-558 | the adjusted limit makes all later reads safe, and limit0 is the end of a span that reaches it |
| `BmpSets.BMPSet.SequenceAt` | source/common/bmpset.cpp:586-645 | one multi-byte sequence, legal or not, is answered as its decoding requires |
| `BmpSets.BMPSet.InitialAscii` | source/common/bmpset.cpp:496-514 | the initial ASCII span, or where it goes on |
| `DictMatcher.BytesDictionaryMatcher.Matches` | source/common/dictionarydata.cpp:111-152 | in text of any native unit size: the first limit words among the prefixes within the bound, with their values, native and character lengths, and the characters consumed |
| `DictMatcher.BytesDictionaryMatcher.Note` | source/common/dictionarydata.cpp:123-135 | a word that ends at the current character is added while there is room |
| `DictMatcher.MatchesAreShortest` | source/common/dictionarydata.cpp:111-152 | these are exactly the shortest limit keys that prefix the text, in strictly increasing length, with their values |
| `DictMatcher.WordsMeaning` | source/common/dictionarydata.cpp:111-152 | without a limit, exactly the keys that prefix the text |
| `DictMatcher.PrefixMeaning` | source/common/dictionarydata.cpp:117-150 | the reported prefix is at least as long as every word, and ends exactly where the scan cannot go on or at the bound |
| `DictMatcher.PrefixIsMatch` | source/common/dictionarydata.cpp:117-150 | that prefix is the length of the longest match if and only if that match fills the bound or ends in a final value; otherwise it is one more |
| `DictMatcher.PrefixCountsMiss` | source/common/dictionarydata.cpp:117-150 | a text on which it is one more |
| `DictMatcher.AcceptsExactly` | source/common/dictionarydata.cpp:91-105 | a text is accepted exactly if it is a word, or is one with U+200D in place of its unmapped characters; acceptance is right if and only if there are no such characters or that text is no word |
| `DictMatcher.WithoutJoiner` | source/common/dictionarydata.cpp:91-105 | for dictionaries without byte 0xFF exactly the words are accepted |
| `DictMatcher.JoinerConfusion` | source/common/dictionarydata.cpp:91-105 | a dictionary with the word U+200D accepts a letter outside its range |
| `DictTrie.TrieIsSound` | source/common/dictionarydata.h:71-93 | a matcher over any well-formed trie meets the contract of dictionary matchers |
| `DictWords.PossibleWord.Candidates` | source/common/dictbe.cpp:154-171 | over any call sequence the cache agrees with a fresh match; the longest candidate is selected |
| `DictWords.PossibleWord.AcceptMarked` | source/common/dictbe.cpp:173-177 | moves behind the marked candidate |
| `DictWords.PossibleWord.BackUp` | source/common/dictbe.cpp:180-187 | moves behind the next shorter candidate, if there is one |
| `DictWords.MarkPreferred` | source/common/dictbe.cpp:516-551 | the nested loops mark the candidate that the lookahead rule prefers |
| `DictWords.TryNext` | source/common/dictbe.cpp:521-546 | one turn: the current candidate is preferred, or the next shorter one is current, or the marked one is preferred |
| `DictWords.TryCurrent` | source/common/dictbe.cpp:522-544 | one candidate: marked if followed by a word; best if its longest second word reaches the end or some second word is followed by a third |
| `DictWords.HasThird` | source/common/dictbe.cpp:535-543 | whether some second word is followed by a third |
| `DictWords.PreferredUnique` | source/common/dictbe.cpp:516-551 | the rule determines one candidate |
| `DictBreaks.FindWord` | source/common/dictbe.cpp:503-551 | the word chosen at the current position, or none |
| `DictBreaks.Resynchronize` | source/common/dictbe.cpp:565-589 | the first plausible boundary behind the position, or the end of the range |
| `DictBreaks.Combine` | source/common/dictbe.cpp:553-603 | takes in text that is not a word exactly if the rule says so |
| `DictBreaks.CombineNext` | source/common/dictbe.cpp:553-603 | the same from the next list of the circular array, or from the current one if no word was found |
| `DictBreaks.OneBreak` | source/common/dictbe.cpp:502-621 | one turn of the loop yields the break that the rule gives |
| `DictBreaks.AllBreaks` | source/common/dictbe.cpp:500-622 | the loop yields the division of the range |
| `DictBreaks.DivideUpDictionaryRange` | source/common/dictbe.cpp:484-631 | pushes exactly the native indexes of the breaks of the division inside the range and returns their number |
| `DictBreaks.NextBreakPlace` | source/common/dictbe.cpp:605-621 | each break is strictly beyond the last, within the range, and not before a combining mark |
| `DictBreaks.DivisionPartitions` | source/common/dictbe.cpp:677-824 | the pieces partition the range, and no break inside it stands before a combining mark |
| `DictBreaks.NativeBreaksAscend` | source/common/dictbe.cpp:605-621 | the native indexes of the breaks ascend strictly from beyond the start of the range |
| `DictBreaks.DivisionUnique` | source/common/dictbe.cpp:882-1061 | the division is determined by the text and the dictionary |
| `DictCjk.DivideUpDictionaryRange` | source/common/dictbe.cpp:1132-1392 | for every text, costs and dictionary: pushes the native indexes of the range start, if the last break is before it, and of the ends found, and returns their number |
| `DictCjk.TableIsOptimal` | source/common/dictbe.cpp:1260-1349 | if sums fit 32 bits and Katakana words are aligned, at every place the table holds the minimum cost over all segmentations, or infinity if there is none, and the prev chain costs exactly that |
| `DictCjkExact.TableRightExactly` | source/common/dictbe.cpp:1260-1349 | for every text: the table is right at every place, for all dictionaries whose sums fit, if and only if all Katakana words are aligned |
| `DictCjk.FoundIsOptimal` | source/common/dictbe.cpp:1351-1369 | then the ends found are those of the words of a cheapest segmentation, or the end of the text if there is none |
| `DictCjkExact.FoundRightExactly` | source/common/dictbe.cpp:1351-1369 | for every text: a cheapest segmentation is found, for all dictionaries whose sums fit, if and only if all Katakana words are aligned or there is only one character |
| `DictCjk.BoundedFits` | source/common/dictbe.cpp:1314-1321 | sums fit 32 bits if no word costs more than most and the number of characters times most is below kuint32max |
| `DictCjk.PricedByWords` | source/common/dictbe.cpp:1102-1109 | no word costs more than most if no dictionary word does and most is at least 8192 |
| `DictCjkPrices.TableBound` | source/common/dictbe.cpp:1314-1321 | for every text without Katakana: the table is right for all dictionaries with prices up to most if and only if the number of characters times most is below kuint32max |
| `DictCjkPrices.FoundBound` | source/common/dictbe.cpp:1314-1321 | a cheapest segmentation is found for all of them if and only if that is so or there is only one character |
| `DictCjk.DearWordsTaken` | source/common/dictbe.cpp:1314-1321 | two words whose costs add up to 2^32 are taken in place of one that costs 5 |
| `DictCjk.KatakanaStepExact` | source/common/dictbe.cpp:1332-1347 | the step for a Katakana word does what the step for a dictionary word does, whatever the tables, if and only if its end has the same index in code units and in characters |
| `DictCjk.AlignedMeaning` | source/common/dictbe.cpp:1287-1291 | which is so if and only if no supplementary character stands before that end |
| `DictCjk.KatakanaMissed` | source/common/dictbe.cpp:1332-1347 | two Katakana behind a supplementary character become three words of cost 765, although two words cost 663 |
| `DictCjk.FoundAscends` | source/common/dictbe.cpp:1351-1369 | for every text and all costs, the ends found ascend strictly from beyond 0 to the end of the text |
| `DictCjk.BreaksAscend` | source/common/dictbe.cpp:1377-1387 | the breaks pushed lie in the range, never decrease and end at its end; they ascend strictly if and only if no two neighbours come from within one NFKC fragment |
| `DictCjkOrder.AscendExactly` | source/common/dictbe.cpp:1377-1387 | for every input and normalizer: the breaks ascend strictly for all dictionaries if and only if every character of the normalized text starts a fragment |
| `DictCjkOrder.RepresentedBreaks` | source/common/dictbe.cpp:1371-1387 | then they do whatever breaks were found before |
| `DictCjk.BreaksFollow` | source/common/dictbe.cpp:1371-1387 | the first break pushed is beyond the last one found before; if that is the start of the range, exactly if the first word does not end within the first fragment |
| `DictCjk.NormalizedBreaksAscend` | source/common/dictbe.cpp:1377-1387 | so they do in text that is in NFKC |
| `DictCjk.BreakTwice` | source/common/dictbe.cpp:1186-1232 | for U+309F the start of the range is pushed twice |
| `DictCjk.Segment` | source/common/dictbe.cpp:1260-1349 | the loop computes the tables of Run |
| `DictCjk.Extend` | source/common/dictbe.cpp:1296-1348 | one position: the dictionary and fallback words and the Katakana word, in this order; the fallback always has room |
| `DictCjk.Relax` | source/common/dictbe.cpp:1314-1321 | one word: a 32-bit sum, compared and entered; places beyond the table read as 0 |
| `DictCjk.MeasureKatakana` | source/common/dictbe.cpp:1329-1339 | the length of the Katakana run up to the group limit, and the code unit index of its end |
| `DictCjk.EdgesInsideRuns` | source/common/dictbe.cpp:1323-1347 | the edges differ from those that start only at the first character of a run exactly inside runs that are not too long |
| `DictCjk.SecondKatakanaStarts` | source/common/dictbe.cpp:1323-1347 | a text in which they differ |
| `DictCjk.Backtrace` | source/common/dictbe.cpp:1351-1369 | the boundaries are the positions on the prev chain, last first |
| `DictCjk.EndsAscend` | source/common/dictbe.cpp:1378-1387 | the ends of the words of any segmentation ascend strictly to the end of what it covers |
| `DictCjkTrie.TrieEngineIsSound` | source/common/dictbe.cpp:1296-1301 | a byte trie as dictionary meets what the engine relies on |
| `DictCjkText.Prepare` | source/common/dictbe.cpp:1141-1258 | the text is the input or its NFKC, fragment by fragment, and the map gives for each of its characters the native index of the character or fragment it comes from |
| `DictCjkText.CopyText` | source/common/dictbe.cpp:1162-1183 | each code unit is mapped to the native index of its character, and the end to the end of the range |
| `DictCjkText.NormalizeText` | source/common/dictbe.cpp:1186-1232 | each code unit is mapped to the native index of its fragment |
| `DictCjkText.ReadFragment` | source/common/dictbe.cpp:1196-1210 | a fragment ends before the next normalization boundary |
| `DictCjkText.MapPositions` | source/common/dictbe.cpp:1234-1258 | the map from code unit indexes becomes, in place, the map from characters |
| `DictCjkText.PlacesOrder` | source/common/dictbe.cpp:1213-1223 | native indexes never decrease, and those of two positions differ if and only if a fragment starts behind the first and not behind the second |
| `DictCjkText.PlacesInRange` | source/common/dictbe.cpp:1213-1226 | they lie in the range, and only the end of the text is mapped to its end |
| `CanonPermute.Permute` | source/common/caniter.cpp:265-337 | adds exactly the allowed rearrangements of the source |
| `CanonPermute.RearrangedStep` | source/common/caniter.cpp:294-335 | the recursion on the leading character is exact, in both modes |
| `CanonPermute.AllRearrangements` | source/common/caniter.cpp:265-337 | without skipZeros these are all strings of the same characters |
| `CanonOdometer.RunVisitsAll` | source/common/caniter.cpp:130-160 | a run from all zeros visits every index vector once, in lexicographic order |
| `CanonOdometer.IncrementCounts` | source/common/caniter.cpp:150-158 | one step adds one to the rank, and is the last exactly when the rank is the highest |
| `CanonOdometer.RankOrder` | source/common/caniter.cpp:150-158 | rank order is lexicographic order, and a rank determines its vector |
| `CanonIterator.CanonicalIterator.Next` | source/common/caniter.cpp:130-160 | returns the concatenation the current vector selects and counts up by one; done exactly after the last vector |
| `CanonIterator.CanonicalIterator.CountUp` | source/common/caniter.cpp:150-158 | the carry loop computes the next vector, or reports the overflow |
| `CanonIterator.CanonicalIterator.Bump` | source/common/caniter.cpp:150-158 | one digit: counted up, or set back to zero |
| `CanonIterator.CanonicalIterator.Reset` | source/common/caniter.cpp:119-124 | starts again from all zeros |
| `CanonIterator.CanonicalIterator.Drain` | source/common/caniter.cpp:130-160 | until done, next() returns one string for every vector, in order |
| `CanonIterator.CanonicalIterator.SetSource` | source/common/caniter.cpp:166-257 | succeeds if and only if every segment of the NFD source has at most 256 code units; then the pieces hold all equivalents of the segments, and no segment is without one |
| `CanonIterator.FindPieces` | source/common/caniter.cpp:242-247 | the equivalents of all segments, or from the first segment that does not fit on none |
| `CanonIterator.FindSegments` | source/common/caniter.cpp:209-225 | exactly the segments of the source: they join to it and are cut exactly before segment starters |
| `CanonIterator.GetEquivalents` | source/common/caniter.cpp:342-428 | for a segment that fits the buffer, exactly the rearrangements of derived strings that are canonically equivalent to it, each once; a buffer overflow exactly for longer ones |
| `CanonIterator.LongSegmentFails` | source/common/caniter.cpp:353-355 | U+0041 with 256 times U+0301 is a segment that does not fit |
| `CanonNfd.NfdIsNfd` | source/common/caniter.cpp:74-75 | NFD, as the canonical ordering of decompositions, is idempotent, respects concatenation, keeps text non-empty and is closed under substrings, which is all the search relies on |
| `CanonComplete.FindsAllExactly` | source/common/caniter.cpp:341-428 | getEquivalents() finds every string with the NFD of the segment, for all segments, if and only if the data has no composite that sticks to a mark and none of class 0 that a mark passes |
| `CanonComplete.StickingMissed` | source/common/caniter.cpp:564-570 | a composite of marks behind a mark that only its first character passes: the string is missed |
| `CanonComplete.HiddenMissed` | source/common/caniter.cpp:300-306 | a composite of marks that is itself of class 0, before a mark that passes it: the string is missed |
| `CanonComplete.TibetanMissed` | source/common/caniter.cpp:341-428 | with U+0F73, U+0F7A U+0F73 and U+0F73 U+0334 are missed |
| `CanonEquivalents.GetEquivalents2` | source/common/caniter.cpp:430-491 | exactly the strings derived by putting composites in; terminates because remainders shrink |
| `CanonEquivalents.Extract` | source/common/caniter.cpp:493-573 | the equivalents of what is left when a composite is taken out, or failure |
| `CanonEquivalents.ScanSegment` | source/common/caniter.cpp:514-555 | takes the characters of the decomposition out of the segment, each where it comes first |
| `CanonEquivalents.DerivesEquivalent` | source/common/caniter.cpp:430-573 | everything derived is canonically equivalent to the segment |
| `CanonIterator.EverythingEquivalent` | source/common/caniter.cpp:126-160 | every string the iterator returns is canonically equivalent to the source |
| `CanonAll.EverythingFound` | source/common/caniter.cpp:23-25 | without such composites the iterator returns every string that is canonically equivalent to the source |
| `CanonIterator.SourceDelivered` | source/common/caniter.cpp:342-428 | the NFD source itself is among them |
| `CacheProtocol.StepInv` | source/common/listformatter.cpp:128-169 | every step of every thread keeps the invariant of the protocol |
| `CacheProtocol.PublishedForever` | source/common/listformatter.cpp:154-166 | over every run a published entry never changes |
| `CacheProtocol.SameForAllCallers` | source/common/loadednormalizer2impl.cpp:225-262 | over every run all callers for one key get the same object |
| `CacheProtocol.ReturnedIsNeverDeleted` | source/common/locutil.cpp:201-258 | no object that was returned is ever deleted |
| `CacheProtocol.LosersDeletedOnce` | source/common/locutil.cpp:243-254 | no object is deleted twice, and when no call is in progress every object is published or was deleted exactly once |
| `CacheProtocol.NoDeadlock` | source/common/listformatter.cpp:137-168 | a thread can always take a step, or waits for one that can |

## Left out

- Failure of memory allocation, UParseError contexts and the error codes passed in: every model starts without an error.
- Message patterns: the values of doubles and strtod() itself; which texts strtod() accepts is a parameter of the parser.
- Message patterns: the character classes are written out as ranges; the lookup tables of PatternProps are not modelled.
- MessageText.AppendSubMessageWithoutSkipSyntax: asks for parts that are placed and a start part that begins a message, which `MessagePlaces.ParsePlaced` and `MessageText.ParseMessages` give after every successful parse.
- BytesTrie::findUniqueValue, UCharsTrie, and the node construction of StringTrieBuilder.
- BMPSet::spanBackUTF8, and the copy constructor of BMPSet.
- BmpSets.BMPSet.SpanUTF8: spanCondition is a boolean, as the values other than 0 are pinned to 1.
- DictMatcher.BytesDictionaryMatcher.Matches: the output arrays are sequences, and each of them is always asked for.
- DictBreaks.DivideUpDictionaryRange: positions are counted in characters up to the end, where they become native indexes; the character sets and the matcher are parameters.
- DictCjkText.Prepare: text is a sequence of code points, and NFKC and its boundaries are parameters.
- DictCjk.DivideUpDictionaryRange: the dictionary is a parameter, shown to exist for byte tries only.
- The Thai engine with its suffix handling, and the loading of dictionaries.
- CanonEquivalents.Extract: strings are sequences of code points; decompositions, combining classes and the data for getCanonStartSet() are parameters.
- CacheProtocol.SameForAllCallers: cleanup at library shutdown, and the creation of the table itself, which an empty map stands for.
- Locale and resource bundle access, and the contents of what the caches load.
