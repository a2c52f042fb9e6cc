# Verification of fasto-common

A Dafny model of the parts of the fasto-common C++ library that do real work on bytes, text and
shared state, with proofs about all inputs, all runs and all interleavings:

- **HPACK** (`HpackInteger`, `HpackRing`, `HpackMap`, `HpackStatic`, `HpackTable`, `HpackIndex`,
  `HpackBlock`, `HpackLiteral`): prefix integers, the ring buffer with its wrapping index, the
  intrusive hash map, the bounded dynamic table that ties them together, the encoder, the resumable
  decoder, the way of indexed fields from one to the other, and which literals arrive.
- **Chunked transfer coding** (`Chunked`, `ChunkedStream`, `ChunkedBody`): the in-place decoder, its
  behaviour under fragmentation, and the bodies it accepts.
- **Wildcard matching** (`Wildcard`, `WildcardDepth`): the depth-bounded matcher against the
  documented meaning of patterns.
- **Hashes** (`BlockHash`, `Md5`, `Sha256`, `Sha1Block`, `Sha1`, `Sha1Example`): streaming against the
  padded message, the SHA-1 block function against FIPS 180-4, and one digest worked out.
- **Unicode** (`Utf8`, `Utf16`, `Transcode`, `Truncate`): the table-driven reader with its error
  recovery, conversion in both directions, validation and truncation.
- **Numbers** (`ParseNumber`, `PrintNumber`): exact parsing with saturation, and printing.
- **Text** (`StringPiece`, `SplitJoin`, `Collapse`): search, trim, split, join, white space.
- **Work queue** (`WorkQueue`): pushers and the event loop as interleaved steps.

`Words` holds the machine arithmetic they share. Code that updates state is modelled as classes,
arrays and loops, proved against specification functions; the theorems are about those functions.
Integers are unbounded; where the C++ wraps or casts to fewer bits, the model writes it out, and
what is not written out is named below. Masks, shifts and disjoint bit-wise ors appear as division,
remainder and sums, except in the SHA-1 compression, which uses 32-bit vectors. Memory failure, the white space of the locale, the name
hash and the block functions of MD5 and SHA-256 are parameters: the results hold for all of them.

Where the code falls short of what one would expect, the model follows the code, a lemma names the
input, and another gives the exact condition:

- table bounds near 4 GB: `EvictsExactlyIff`, `BoundKeptIff`, `DecoderKeepsBoundIff`;
- literals with a name that is not static: `LiteralSurvivesIff`;
- chunked streams cut after a stray carriage return or inside a long line, and lines and excess of
  2^31 bytes: `CutIsSafeIff`, `FilterBuf`, `BodyCounted`;
- patterns beyond the depth bound, and texts above 4 GiB: `MatcherIsRightIff`, `ReadRightIff`,
  `LongTextRightIff`;
- SHA-1 of messages and SHA-256 of pieces of 4 GiB: `PadIsStandardIff`, `UpdateEndsIff`;
- text and limits of 2^31 - 1 and more: `ConversionRightIff8`, `ConversionRightIff16`,
  `ProgramRoundTrip8`, `ProgramRoundTrip16`, `AcceptanceRightIff`, `TruncationRightIff`, `DefinedIff`;
- functions pushed before the watcher starts: `AwakeIffNothingForgotten`;
- lists that do not survive join and split: `SplitUndoesJoin`, `SplitStringUndoesJoin`.

The header `include/common/string_util.h` limits patterns to 16 wildcards; the code counts levels of
recursion, which is more generous.

## Model

| member | source | states |
|---|---|---|
| HpackInteger.EncodedFitsScratch | src/http/http2.cpp:265-305 | every 32-bit value with every prefix takes one to six bytes, so the 16-byte scratch buffer of the callers cannot overflow |
| HpackInteger.CountEncodedLength | src/http/http2.cpp:265-280 | the count made beforehand is the length of the representation, whatever flag bits share its first byte |
| HpackInteger.EncodeLength | src/http/http2.cpp:282-305 | the bytes written are the base-128 representation of the value under the prefix, the rest of the buffer is untouched |
| HpackInteger.WriteGroups | src/http/http2.cpp:296-304 | the loop writes the continuation groups, least significant first, and nothing else |
| HpackInteger.EncodedForm | src/http/http2.cpp:282-305 | the form of section 5.1 of RFC 7541: one byte exactly for numbers below 2^N - 1, which are then its low bits; otherwise ones there, and the excess in seven-bit groups, least significant first, with the top bit set on all but the last |
| HpackInteger.DecodeLength | src/http/http2.cpp:1054-1114 | one reader call from a fresh or resumed position: failure on 32-bit overflow, the undefined shift, an unfinished value or a finished one, with the bytes used |
| HpackInteger.ReadGroups | src/http/http2.cpp:1086-1113 | the loop over continuation bytes computes the scan of the tail, with its three early exits |
| HpackInteger.ScanGroups | src/http/http2.cpp:1054-1114 | reading the groups of a number adds that number shifted into place and stops right after them, whatever follows |
| HpackInteger.DecodedValue | src/http/http2.cpp:1054-1114 | what any bytes read as: the low bits modulo 2^N unless these are ones, else 2^N - 1 plus the sum of the seven-bit groups up to the first byte below 128; a failure only where that number passes 32 bits |
| HpackInteger.RoundTrip | src/http/http2.cpp:282-305 | for every 32-bit value, prefix and following bytes the reader returns the value, uses exactly what was written, and the flag bits above the prefix survive |
| HpackInteger.DecodedSplit | src/http/http2.cpp:1054-1114 | stopping after any byte and resuming with the saved value and shift ends as the uninterrupted read does |
| HpackInteger.ReadLength | src/http/http2.cpp:1116-1136 | the bounded read refuses a value above the maximum, finished or not |
| HpackInteger.FragmentsAgree | src/http/http2.cpp:1116-1136 | over any list of non-empty fragments, value, consumption and maximum-length verdict are those of one pass, unless that pass meets the undefined shift |
| HpackInteger.DefinedWithinFive | src/http/http2.cpp:1054-1114 | the undefined shift needs more than five continuation bytes |
| HpackRing.SlotIsRem | src/http/http2.cpp:217-220 | for a power-of-two buffer the wrap of the 32-bit counter through zero does not show in the slot |
| HpackRing.SlotDistinct | src/http/http2.cpp:217-220 | no two live elements share a slot |
| HpackRing.ShowsAfterPush | src/http/http2.cpp:248-258 | counting `first` down and writing one slot puts the element in front of all others |
| HpackRing.Ring.constructor | src/http/http2.cpp:1311-1329 | an empty ring with a power-of-two buffer |
| HpackRing.PowerAtLeast | src/http/http2.cpp:1311-1329 | the doubling loop ends at a power of two of at least the asked size |
| HpackRing.Ring.Get | src/http/http2.cpp:217-220 | element i counted from the newest |
| HpackRing.Ring.CopyInto | src/http/http2.cpp:234-240 | the larger buffer shows the same elements in the same order |
| HpackRing.Ring.Reserve | src/http/http2.cpp:222-246 | growing never changes the visible sequence; it fails only for lack of memory |
| HpackRing.Ring.PushFront | src/http/http2.cpp:248-258 | the element goes in front, or nothing changes when there is no memory |
| HpackRing.Ring.PopBack | src/http/http2.cpp:260-263 | the oldest element goes |
| HpackMap.Walk | src/http/http2.cpp:170-189 | one walk along a chain answers as two searches would: the newest exact match, else the newest name match |
| HpackMap.Before | src/http/http2.cpp:191-211 | the walk finds the predecessor of the entry exactly when the entry is further down the chain |
| HpackMap.NewestIsFirst | src/http/http2.cpp:170-189 | the entry a search finds is the first match, newest first |
| HpackMap.BucketMap.Insert | src/http/http2.cpp:157-168 | the entry joins the chain of its own hash bucket, in front; each member stays on exactly one chain, once |
| HpackMap.BucketMap.LinkFront | src/http/http2.cpp:157-168 | the pointers of one bucket change, every other chain reads as before |
| HpackMap.BucketMap.Find | src/http/http2.cpp:170-189 | the answer is that of a newest-first linear search of the bucket that prefers an exact match |
| HpackMap.BucketMap.Remove | src/http/http2.cpp:191-211 | exactly the given entry leaves, wherever it is in its chain; an absent entry changes nothing |
| HpackMap.BucketMap.UnlinkFirst | src/http/http2.cpp:191-211 | the chain without its first entry; every other chain reads as before |
| HpackMap.BucketMap.UnlinkNext | src/http/http2.cpp:191-211 | the chain without an inner entry; every other chain reads as before |
| HpackMap.PartitionedInsert | src/http/http2.cpp:157-168 | an insertion keeps every member on its own bucket chain once and chains free of anything else |
| HpackMap.PartitionedDrop | src/http/http2.cpp:191-211 | so does a removal |
| HpackStatic.RowTokens | src/http/http2.cpp:48-110 | every row has the name of the row its token points to |
| HpackStatic.StaticTokenName | src/http/http2.cpp:567-945 | the names that the decision tree compares with are the names of the table, each for the first row that has it |
| HpackStatic.TreeIsComplete | src/http/http2.cpp:567-945 | the decision tree on length and last character finds every name it knows: each token finds itself |
| HpackStatic.TokenOfRow | src/http/http2.cpp:48-110 | the name of a row has the token of the row, which is the first row of that name |
| HpackStatic.LookupToken | src/http/http2.cpp:567-945 | a token is returned only for its own name |
| HpackStatic.TokenDeterminesName | src/http/http2.cpp:567-945 | a token other than -1 belongs to one name only, so comparing tokens is comparing names |
| HpackStatic.ScanFinds | src/http/http2.cpp:506-520 | the scan from the first row of a token reaches every row of it |
| HpackStatic.StaticIndex | src/http/http2.cpp:506-520 | a row is reported if and only if the static table holds the field, and that row holds it |
| HpackStatic.StaticValues | src/http/http2.cpp:48-110 | a field with a value is in the table exactly if it is one of the fourteen of appendix A of RFC 7541 |
| HpackStatic.SameNameSorted | src/http/http2.cpp:48-110 | rows of one name stand in the dictionary order of their values |
| HpackTable.KeptPassesTest | src/http/http2.cpp:438-448 | the eviction loop stops at the largest count that passes its own test, in wrapping arithmetic |
| HpackTable.EvictsExactlyIff | src/http/http2.cpp:438-448 | the kept entries are the longest run of newest ones that fits if and only if no sum of 4 GB or more wraps to one that passes for fitting |
| HpackTable.KeptIsLongestFit | src/http/http2.cpp:438-448 | below 4 GB in all, exactly the shortest oldest run needed is evicted |
| HpackTable.WrapLosesBound | src/http/http2.cpp:438-448 | from fields of any given kind of all sizes up to the largest, a run of inserts that ends with the bound lost: the last sum is 2^32, wraps to zero, and nothing is evicted |
| HpackTable.InsertKeepsBound | src/http/http2.cpp:431-472 | an insert that fits leaves the table within its bound; one that does not leaves a table of one entry |
| HpackTable.ResizeKeepsBound | src/http/http2.cpp:555-565 | a shrink always ends within the new bound |
| HpackTable.RunKeepsBound | src/http/http2.cpp:431-472 | over every run of inserts and resizes the table fits its bound or holds one oversized entry, and never more than 2^27 entries |
| HpackTable.TableIsNewest | src/http/http2.cpp:431-472 | after every run the table is the newest of the fields inserted, newest first, the last insert for sure among them, under the last bound set |
| HpackTable.BoundKeptIff | src/http/http2.cpp:431-472 | for every bound and every largest field: the bound is kept over every run if and only if bound and largest field, and two such fields, stay below 4 GB together |
| HpackTable.NewestInBucket | src/http/http2.cpp:170-189 | searching one bucket finds what searching the whole table finds |
| HpackTable.MirrorsAfterPush | src/http/http2.cpp:431-472 | the map stays the table sorted into buckets, newest first, when an entry is added |
| HpackTable.MirrorsAfterPop | src/http/http2.cpp:438-448 | the oldest entry of the table is the last of its chain, and taking it off both keeps them in step |
| HpackTable.Table.constructor | src/http/http2.cpp:1338-1343 | an empty table, with a map on the encoder side only |
| HpackTable.Table.TakeOldest | src/http/http2.cpp:439-444 | the oldest entry leaves the ring and its room the size |
| HpackTable.Table.EvictOldest | src/http/http2.cpp:438-448 | the oldest entry leaves ring and map; the size stays the sum of 32 plus name plus value over the live entries |
| HpackTable.Table.EvictStep | src/http/http2.cpp:438-448 | one turn of the loop keeps the count at which it will stop, and says whether it is reached |
| HpackTable.Table.MakeRoom | src/http/http2.cpp:438-448 | entries leave, oldest first, until the extra bytes fit or none is left |
| HpackTable.Table.PushEntry | src/http/http2.cpp:456-472 | the entry goes in front with the next sequence number, or nothing changes without memory |
| HpackTable.Table.AddNewest | src/http/http2.cpp:456-472 | ring and map take the entry together |
| HpackTable.Table.Insert | src/http/http2.cpp:431-472 | the table takes the step of a bounded FIFO; place i holds sequence number next_seq-1-i; without memory only the evictions remain |
| HpackTable.Table.Resize | src/http/http2.cpp:555-565 | the table takes the resize step of the bounded FIFO |
| HpackTable.Table.Find | src/http/http2.cpp:170-189 | the map search equals a newest-first search of the whole table that prefers an exact match, in every state the operations reach |
| HpackIndex.ExactIndexResolves | src/http/http2.cpp:959-966 | a field has an exact index if and only if the dynamic table holds it, or the static one does and it may be indexed; the index holds the very field |
| HpackIndex.HitComparesNames | src/http/http2.cpp:170-189 | the test by token, hash and name is equality of names, with the value equality of fields |
| HpackIndex.SerialGivesPlace | src/http/http2.cpp:536-552 | the wrapped distance of sequence numbers is the place in the table |
| HpackIndex.SearchStatic | src/http/http2.cpp:506-520 | the static scan reports the row with the value, or the first row of the name; never an exact match for a never-indexed field |
| HpackIndex.CombinedAnswers | src/http/http2.cpp:522-553 | combining the static and the dynamic finding gives the answer of the search |
| HpackIndex.Encoder.SearchDynamic | src/http/http2.cpp:536-552 | the place of an exact match in the dynamic table, else of an entry of that name |
| HpackIndex.Encoder.Search | src/http/http2.cpp:522-553 | an exact match is reported exactly when a table holds the field, at an index that holds it, except that never-indexed fields are not looked up in the static table; otherwise the index is of an entry of that name, a static one if there is one, or -1 when no table has the name |
| HpackIndex.EmitIndexed | src/http/http2.cpp:307-325 | the block is one byte, 0x81 plus the index, up to index 125; beyond that 0xFF and the index less 126 in seven-bit groups |
| HpackIndex.ModeByName | src/http/http2.cpp:978-1011 | by name: never indexed exactly when flagged, authorization, or a cookie of fewer than 20 bytes; otherwise without indexing exactly for eight one-off names and for fields above three quarters of the bound |
| HpackIndex.IndexedFieldsFit | src/http/http2.cpp:978-987 | a field chosen for indexing fits the table, for every bound |
| HpackIndex.Encoder.constructor | src/http/http2.cpp:1270-1282 | an empty table with a bound of 0 |
| HpackIndex.Encoder.Add | src/http/http2.cpp:431-472 | the field is inserted under the token and hash of its own name |
| HpackIndex.Encoder.Deflate | src/http/http2.cpp:989-1052 | an exact match becomes an indexed block and leaves the table alone; any other field goes as a literal with the index of its name, and is inserted when it is to be indexed; without memory the table can only lose entries |
| HpackIndex.SecretsNeverStored | src/http/http2.cpp:989-1052 | over every run of sends, failures and bound changes from the empty table, no authorization, no cookie of fewer than 20 bytes and no one-off field is ever in the dynamic table |
| HpackBlock.Decoder.constructor | src/http/http2.cpp:1347-1366 | a decoder at its start, with an empty table and a bound of 4096 |
| HpackBlock.Decoder.Inflate | src/http/http2.cpp:1382-1500 | one call along the indexed path: wait with a resumable phase, deliver the entry at the index, reject an index of zero or past the table, a size update in the wrong place or an end inside a field, and stay bad after a rejection |
| HpackBlock.Decoder.ReadIndexState | src/http/http2.cpp:1459-1500 | the integer read so far, resumed, and the entry it selects |
| HpackBlock.Decoder.Get | src/http/http2.cpp:959-966 | the field at an index: static rows first, then the dynamic table, newest first |
| HpackBlock.Decoder.InflatePiece | src/http/http2.cpp:1382-1500 | repeated calls on one piece of input deliver the fields of the indices it completes |
| HpackBlock.Decoder.InflateAll | src/http/http2.cpp:1382-1500 | repeated calls on the pieces of a header block deliver the fields of its indices, in order |
| HpackBlock.FeedCut | src/http/http2.cpp:1459-1500 | a call on the whole ends as a call on its front and one on the rest, unless it meets the undefined shift |
| HpackBlock.ParseCut | src/http/http2.cpp:1382-1500 | a header block read whole, and cut once and resumed, give the same indices and end, unless the whole meets the undefined shift |
| HpackBlock.StreamCut | src/http/http2.cpp:1382-1500 | however a header block is cut, the decoder reads the same indices and ends the same way, unless the whole meets the undefined shift; even then no field of it is lost |
| HpackBlock.OpenIsDefined | src/http/http2.cpp:1382-1500 | a block that the decoder reads to its end met no undefined shift |
| HpackBlock.BlockReadsBack | src/http/http2.cpp:307-325 | an indexed block, whatever follows it, is read as its index |
| HpackBlock.OneByteField | src/http/http2.cpp:1459-1500 | the byte 0x80 + n delivers entry n, counted from one, of the 61 static rows and the dynamic table; n = 0 and n past the end are rejected |
| HpackBlock.BlocksSurviveCutting | src/http/http2.cpp:1459-1500 | the blocks of any list of indices, cut in any way and whatever follows, are read back as these indices |
| HpackBlock.SizeUpdateComesFirst | src/http/http2.cpp:1416-1422 | a table size update is rejected behind any field of a header block, and only there |
| HpackBlock.EndsBetweenFields | src/http/http2.cpp:1649-1663 | the bytes of any indexed fields, stopped anywhere, may end a header block exactly behind one of the fields |
| HpackBlock.EmitAll | src/http/http2.cpp:307-325 | the encoder has an index for each field its tables hold, and these indices hold the fields |
| HpackBlock.EveryCut | src/http/http2.cpp:1382-1500 | every list of pieces is a cut of the bytes they join to |
| HpackBlock.Exchange | src/http/http2.cpp:1459-1500 | with equal tables on both sides, fields that the encoder finds there are delivered by the decoder, in order and nothing else, in any fragmentation |
| HpackBlock.Decoder.CommitNewName | src/http/http2.cpp:1138-1178 | a new name is delivered and inserted as name and value run together with an empty value, when it is to be indexed; otherwise the program ends |
| HpackBlock.Decoder.CommitIndexedName | src/http/http2.cpp:1180-1244 | a static name with the value read is delivered and inserted when it is to be indexed; otherwise the program ends |
| HpackBlock.Decoder.AddLiteral | src/http/http2.cpp:1153-1166 | the field is inserted and delivered; without memory the program ends |
| HpackLiteral.CountCoded | src/http/http2_huffman.cpp:5020-5028 | the 32-bit count of bits and its rounding give the length of the Huffman form |
| HpackLiteral.ChooseForm | src/http/http2.cpp:327-348 | the Huffman form is chosen, and its length sent, exactly when it is shorter |
| HpackLiteral.CarriedIff | src/http/http2.cpp:1500-1575 | a string gets through exactly when it or its Huffman form has at most 65536 bytes |
| HpackLiteral.IndexTellsName | src/http/http2.cpp:522-553 | the index a search ends with is static exactly for static names, and -1 exactly for names in no table |
| HpackLiteral.LiteralSurvivesIff | src/http/http2.cpp:474-487 | a literal is delivered as sent, with equal tables after it, if and only if it is to be indexed and its name is static and its value gets through, or its name is in no table, gets through, is not shorter in Huffman form, and its value is empty |
| HpackLiteral.HuffmanNameIsLost | src/http/http2.cpp:1526-1527 | the name `cat` with an empty value, at an empty table and the default bound, is sent Huffman-coded and ends the program |
| HpackLiteral.OrdinaryNameIsLost | src/http/http2.cpp:1526-1527 | so is every new name of eight or more lower-case letters, digits and hyphens, below 2^28 |
| HpackLiteral.StoredSize | src/http/http2.cpp:1511-1575 | no field that the decoder stores takes more than 170425 bytes: a name of 65536 bytes and a value of as many bytes of five-bit codes |
| HpackLiteral.ZeroFieldStored | src/http/http2.cpp:1511-1575 | a sender can make the decoder store a field of each size up to that |
| HpackLiteral.DecoderKeepsBoundIff | src/http/http2.cpp:1511-1575 | whatever is sent, the decoder keeps its bound if and only if the bound is below 2^32 - 170425 |
| ParseNumber.BoundsAreExact | src/string_number_conversions.cpp:264-291 | the test before appending a digit passes exactly when the new value is still in range, on either side of zero |
| ParseNumber.AppendDigit | src/string_number_conversions.cpp:246-261 | one turn of the loop: refused exactly when the value with the new digit is out of range, and never outside the type on the way |
| ParseNumber.DigitLoop | src/string_number_conversions.cpp:232-262 | the loop accepts a string of digits in range, and otherwise returns the value of the leading digits, saturated, without leaving the range on the way |
| ParseNumber.ToNumber | src/string_number_conversions.cpp:196-222 | white space, sign and prefix handling around the digit loop |
| ParseNumber.DigitsOfNumeral | src/string_number_conversions.cpp:232-262 | the digit loop on digits alone: accepted exactly in range, else the nearest bound |
| ParseNumber.NumeralParses | src/string_number_conversions.cpp:187-291 | a written number is accepted exactly when it is in range; out of range the result is the nearest bound |
| ParseNumber.AcceptedIsNumeral | src/string_number_conversions.cpp:187-291 | whatever is accepted is an optional sign, an optional hexadecimal prefix and digits, without leading white space |
| ParseNumber.ParseIsExact | src/string_number_conversions.cpp:187-291 | for every base and range: accepted if and only if the text is a written number in range, and then that number is returned |
| ParseNumber.DigitIsPlace | src/string_number_conversions.cpp:117-165 | in every base a character stands for digit d exactly if it is the d-th of 0-9a-z or of 0-9A-Z |
| ParseNumber.DenotesIff | src/string_number_conversions.cpp:187-262 | the digits and the value of the parser are those of positional notation, for every text, base and number |
| ParseNumber.WrittenDenotes | src/string_number_conversions.cpp:187-262 | writing a number digit by digit, by looking the digits up, gives a text that denotes it |
| ParseNumber.WrittenParses | src/string_number_conversions.cpp:187-291 | for every base and every number of the type, the written number is accepted as that number |
| ParseNumber.FirstCharChecked | src/parse_number.cpp:68-92 | after the check of the first character the lenient parser accepts exactly the documented grammar |
| ParseNumber.PromisedWritten | src/parse_number.cpp:68-113 | a written number is returned, or refused as too large, as too small, or for a sign that is not allowed |
| ParseNumber.ParseInt | src/parse_number.cpp:68-113 | value, overflow, underflow or parse error exactly as the number and the documented grammar say |
| PrintNumber.DecimalFits | src/string_number_conversions.cpp:87-114 | three characters a byte hold every unsigned value |
| PrintNumber.NegativeFits | src/string_number_conversions.cpp:87-114 | and leave room for a sign |
| PrintNumber.IntToString | src/string_number_conversions.cpp:87-114 | for every value but the least signed one, whose negation overflows, the back-to-front writer produces the decimal text and never reaches the start of its buffer |
| PrintNumber.PrintParses | src/string_number_conversions.cpp:87-114 | what is printed is the decimal notation, and parsing it returns the value, for any value of the type |
| Chunked.ParseChunkSize | src/http/http_chunked_decoder.cpp:179-200 | a size is hexadecimal digits followed by spaces, within 63 bits; anything else is refused |
| Chunked.HexText | src/string_number_conversions.cpp:187-291 | the 64-bit hexadecimal parser gives the value of a string of digits, saturated |
| Chunked.IndexOfLF | src/http/http_chunked_decoder.cpp:100-101 | the first line feed, or the length |
| Chunked.CutExtensions | src/http/http_chunked_decoder.cpp:125-128 | the part before the first semicolon |
| Chunked.MoveDown | src/http/http_chunked_decoder.cpp:85-87 | the overlapping move toward the front copies the old contents |
| Chunked.Decoder.constructor | src/http/http_chunked_decoder.cpp:45-50 | the start state |
| Chunked.Decoder.Scan | src/http/http_chunked_decoder.cpp:94-157 | one line, complete or not, takes the step of the stream specification, exactly unless a joined line of 2^31 characters or more turns negative as an `int` |
| Chunked.Decoder.Complete | src/http/http_chunked_decoder.cpp:114-139 | a complete line ends the body, ends a chunk, or gives the next size; out of place it is an error |
| Chunked.MisreadIff | src/http/http_chunked_decoder.cpp:110-113 | a line whose length turns negative counts as empty, and is misread unless it is a size line refused either way |
| Chunked.Decoder.ScanInPlace | src/http/http_chunked_decoder.cpp:80-88 | scanning a line in the buffer and closing its gap leaves the rest of the stream to decode, with the same exception |
| Chunked.Decoder.Turn | src/http/http_chunked_decoder.cpp:58-88 | one turn of the loop, over data, a line or the excess, leaves the rest of the stream to decode |
| Chunked.Decoder.FilterBuf | src/http/http_chunked_decoder.cpp:52-92 | the call ends; the front of the buffer becomes exactly the chunk data of its contents, the state is that of the specification, nothing past the given length is touched, exactly unless a line length or the count of excess bytes leaves an `int` |
| ChunkedStream.CutAgrees | src/http/http_chunked_decoder.cpp:52-157 | a stream cut anywhere but after a carriage return that does not end its line decodes in two calls as in one |
| ChunkedStream.DroppedCRShows | src/http/http_chunked_decoder.cpp:144-152 | after such a cut a second carriage return tells the two readings apart |
| ChunkedStream.TooLongShows | src/http/http_chunked_decoder.cpp:148-150 | an open line that is refused for its length, and no other, is accepted when its line feed comes in the same call |
| ChunkedStream.RefusedGrows | src/http/http_chunked_decoder.cpp:114-139 | a non-empty line that is refused stays refused when more characters join it |
| ChunkedStream.StaysRefused | src/http/http_chunked_decoder.cpp:52-157 | what one call refuses, for anything but the length of an open line, is refused whatever follows |
| ChunkedStream.CutIsSafeIff | src/http/http_chunked_decoder.cpp:144-152 | for every state and first part: a cut is harmless for every continuation if and only if no carriage return was dropped at it and no line refused there for its length would be accepted when complete |
| ChunkedStream.LongTrailerIsRefused | src/http/http_chunked_decoder.cpp:148-150 | a trailer line of n characters is accepted with its line feed, and refused when cut before it exactly if n is above 16384 |
| ChunkedStream.CleanCut | src/http/http_chunked_decoder.cpp:52-157 | a stream whose lines hold no stray carriage return and fit the buffer may be cut anywhere, and stays so |
| ChunkedStream.FragmentsAgree | src/http/http_chunked_decoder.cpp:52-157 | such a stream decodes the same in any fragmentation |
| ChunkedStream.CleanCounted | src/http/http_chunked_decoder.cpp:52-157 | the counts of every call on a fragmented clean stream stay within an `int` if and only if fewer than 2^31 excess bytes come in all |
| ChunkedBody.SizeLineIff | src/http/http_chunked_decoder.cpp:125-139 | a line gives a chunk size exactly if it is that number in hexadecimal, of either case, then spaces, then nothing or extensions behind a semicolon, within 63 bits |
| ChunkedBody.ReadBody | src/http/http_chunked_decoder.cpp:52-157 | a body of chunks, with extensions, trailers and excess bytes, decodes to its data in one call |
| ChunkedBody.BodyDecodes | src/http/http_chunked_decoder.cpp:52-157 | however a body with clean lines is cut, the outputs join to the chunk data, the end is reached and the excess bytes are counted |
| ChunkedBody.BodyCounted | src/http/http_chunked_decoder.cpp:52-157 | the counts stay within an `int` on the way if and only if fewer than 2^31 excess bytes follow |
| ChunkedBody.BodyAccepted | src/http/http_chunked_decoder.cpp:52-157 | a stream that is read to its end is such a body, and this one |
| ChunkedBody.AcceptedIffBody | src/http/http_chunked_decoder.cpp:52-157 | a stream is read to its end in one call if and only if it is a chunked body and whatever follows it |
| ChunkedBody.WrittenBodyDecodes | src/http/http_chunked_decoder.cpp:52-157 | any pieces of data, written in chunks behind their sizes in hexadecimal and cut in any way, are read back whole, with the end seen and nothing left over |
| Wildcard.NextCode | src/string_util.cpp:903-911 | one character or error of UTF-8 text, with the remaining length cast to 32 bits for the reader |
| Wildcard.CastIsSeen | src/string_util.cpp:903-911 | the cast shows only where 1, 2 or 3 bytes are left modulo 2^32, above 2^32 |
| Wildcard.EatSameChars | src/string_util.cpp:778-821 | the pointer loop drops the longest run of equal characters, escapes together with what they guard; bytes that are no character equal nothing |
| Wildcard.EatWildcards | src/string_util.cpp:823-831 | the pointer loop drops all leading wildcards |
| Wildcard.MatchPattern | src/string_util.cpp:833-901 | the recursion on pointers into bytes, with its depth bound, is the matcher on the code points as the code reads them, and it ends; for texts and patterns of any length |
| Wildcard.MatchBranch | src/string_util.cpp:848-900 | the part after the equal characters |
| Wildcard.TrailMatchesNothing | src/string_util.cpp:882-888 | a suffix that begins inside a character matches nothing |
| Wildcard.MatchSuffixes | src/string_util.cpp:878-888 | the loop over suffixes after a star, byte by byte, finds what a search over characters finds |
| WildcardDepth.EatSameKeepsMeaning | src/string_util.cpp:778-821 | dropping equal characters does not change whether the string matches |
| WildcardDepth.WildTakesPrefix | src/string_util.cpp:878-895 | a run of wildcards that starts with a star means some suffix of the string |
| WildcardDepth.MatchesIff | include/common/string_util.h:525-530 | what a match means: the text falls into parts, one for each piece of the pattern, any run for `*`, at most one character for `?`, that character for a plain or escaped one |
| WildcardDepth.Sound | src/string_util.cpp:833-901 | whatever the depth, an accepted string matches the pattern as documented |
| WildcardDepth.Complete | src/string_util.cpp:833-901 | every match is found when the pattern needs no more levels than are left |
| WildcardDepth.NeedWithinWildcards | src/string_util.cpp:833-901 | a pattern needs at most one level for each unescaped wildcard |
| WildcardDepth.SixteenWildcards | include/common/string_util.h:525-530 | with at most 16 unescaped wildcards the matcher agrees with the documented meaning on every text, well formed or not, of up to 4 GiB |
| WildcardDepth.WitnessFails | src/string_util.cpp:840-843 | a pattern that needs more levels is wrongly refused at the string built from its literals |
| WildcardDepth.MatcherIsRightIff | src/string_util.cpp:833-901 | the matcher is right on every text of up to 4 GiB if and only if the pattern, of up to 4 GiB, needs at most 16 levels, or ends in a lone backslash or asks for bytes that are no character |
| WildcardDepth.WitnessSize | src/string_util.cpp:833-901 | the string on which a deep pattern is refused is no longer than the pattern |
| WildcardDepth.ReadRightIff | src/string_util.cpp:903-911 | texts and patterns of n bytes are all read as the characters they hold if and only if n is at most 2^32 |
| WildcardDepth.LongTextRightIff | src/string_util.cpp:833-911 | a pattern of two stars around one four-byte character is answered right on every text of n bytes if and only if n is at most 2^32 |
| BlockHash.FoldAppend | src/hash/md5.cpp:199-231 | what is left to fold after an append is the buffered rest followed by the new data |
| BlockHash.CopyIn | src/hash/md5.cpp:214-230 | the copied bytes stand in the buffer and the rest of it is as before |
| BlockHash.CompleteBlock | src/hash/md5.cpp:211-224 | filling up the buffered rest and going on with what remains folds the same blocks |
| BlockHash.AppendByte | src/hash/sha256.cpp:116-126 | one more byte joins the rest or completes a block |
| BlockHash.PaddedTail | src/hash/md5.cpp:233-281 | padding the message and padding its rest fold to the same state |
| BlockHash.PaddedShort | src/hash/sha256.cpp:128-154 | a rest of up to 55 bytes needs one last block |
| BlockHash.PaddedLong | src/hash/sha256.cpp:128-154 | a longer rest needs two |
| BlockHash.WordInPlaceLittle | src/hash/md5.cpp:263-278 | register i is in bytes 4i to 4i + 3 of the digest, least significant byte first |
| BlockHash.WordInPlaceBig | src/hash/sha256.cpp:156-165 | the same, most significant byte first |
| BlockHash.BigEndianHolds | src/hash/sha256.cpp:144-153 | a big-endian length field holds the number, base 256 |
| BlockHash.EndiansMirror | src/hash/md5.cpp:252-259 | a little-endian one is the same backwards |
| Md5.CounterAdds | src/hash/md5.cpp:203-207 | the 29-bit and 32-bit counter words with their carry add the length |
| Md5.CounterIsLength | src/hash/md5.cpp:252-259 | written out they are the 64-bit length in bits of RFC 1321 |
| Md5.Context.constructor | src/hash/md5.cpp:189-197 | nothing absorbed |
| Md5.Context.Body | src/hash/md5.cpp:81-185 | the block function folded over whole blocks |
| Md5.Context.Absorb | src/hash/md5.cpp:209-230 | the buffer and the blocks folded are those of the buffered rest followed by the data |
| Md5.Context.Update | src/hash/md5.cpp:199-231 | the context has absorbed the old message and then the data, for every size |
| Md5.Context.Mark | src/hash/md5.cpp:236-247 | marker in place; without room for the length the block goes through |
| Md5.Context.Close | src/hash/md5.cpp:249-261 | zeros and the two counter words complete the last block |
| Md5.Context.Final | src/hash/md5.cpp:233-281 | the state is the fold of any block function over the padded message |
| Md5.WriteOut | src/hash/md5.cpp:263-278 | the registers in bytes, least significant first |
| Md5.Digest | src/hash/md5.cpp:199-281 | however a message is cut into updates, the digest bytes are those of the whole padded message |
| Sha256.Context.constructor | src/hash/sha256.cpp:103-114 | nothing absorbed |
| Sha256.Context.UpdateByte | src/hash/sha256.cpp:117-125 | one byte more; only whole blocks are counted |
| Sha256.Context.Update | src/hash/sha256.cpp:116-126 | after any number of turns: ended if and only if the piece is shorter than 4 GiB and used up, and then it is absorbed; otherwise that many bytes, read over and over |
| Sha256.Context.Mark | src/hash/sha256.cpp:129-143 | marker and zeros up to the length field, in one block or two |
| Sha256.Context.UpdateAll | src/hash/sha256.cpp:116-126 | one update for each piece: ended if and only if every piece is shorter than 4 GiB, and then all are absorbed in order |
| Sha256.Context.Final | src/hash/sha256.cpp:128-166 | the state is the fold of any block function over the padded message of FIPS 180-4 |
| Sha256.UpdateEndsIff | src/hash/sha256.cpp:116-126 | the 32-bit loop index reaches a length if and only if it is below 2^32 |
| Sha256.WriteOut | src/hash/sha256.cpp:156-165 | the registers in bytes, most significant first |
| Sha256.Digest | src/hash/sha256.cpp:116-166 | however a message is cut into updates, the digest bytes are those of the whole padded message, if and only if every piece is shorter than 4 GiB; otherwise an update does not end |
| Sha1Block.ConstantsAreRoots | src/hash/sha1.cpp:38-41 | the four constants are the square roots of 2, 3, 5 and 10 times 2^30, rounded down |
| Sha1Block.RotlDoubles | src/hash/sha1.cpp:46-48 | rotation by one is doubling with the carry added back |
| Sha1Block.CheaperForms | src/hash/sha1.cpp:64-72 | the rewritten forms of Ch and Maj are the functions of FIPS 180-4 |
| Sha1Block.FunctionsAgree | src/hash/sha1.cpp:64-72 | the function chosen for each round is that of the standard |
| Sha1Block.RoundsAgree | src/hash/sha1.cpp:50-85 | one round of the code is one round of the standard |
| Sha1Block.RollOn | src/hash/sha1.cpp:59-63 | overwriting one of sixteen words keeps word i of the schedule in slot i mod 16 |
| Sha1Block.HashBlock | src/hash/sha1.cpp:50-85 | the in-place block function is the 80-word compression of FIPS 180-4 |
| Sha1.StartValue | src/hash/sha1.cpp:128-136 | the start value, in little-endian memory, is 0123456789abcdef up, fedcba9876543210 down and f0e1d2c3 |
| Sha1.HoldsAppend | src/hash/sha1.cpp:87-94 | storing a byte at offset xor 3 puts it in its place of a big-endian word |
| Sha1.HoldsBlock | src/hash/sha1.cpp:87-99 | a full buffer of words is the block of bytes the standard reads |
| Sha1.CountBytes | src/hash/sha1.cpp:116-123 | the eight bytes appended are the count times eight, most significant first |
| Sha1.PadIsStandardIff | src/hash/sha1.cpp:106-124 | the padding is that of the standard if and only if the message is shorter than 4 GiB |
| Sha1.Context.constructor | src/hash/sha1.cpp:128-136 | nothing absorbed |
| Sha1.Context.AddUncounted | src/hash/sha1.cpp:87-99 | one byte more; a full buffer is hashed |
| Sha1.Context.UpdateByte | src/hash/sha1.cpp:101-104 | one byte more, counted modulo 2^32 |
| Sha1.Context.Update | src/hash/sha1.cpp:138-142 | all bytes of the piece, counted modulo 2^32 |
| Sha1.Context.AddAll | src/hash/sha1.cpp:115-123 | bytes that are not counted |
| Sha1.Context.AddMarker | src/hash/sha1.cpp:106-114 | marker and zeros up to the length field |
| Sha1.Context.Final | src/hash/sha1.cpp:144-159 | the registers after the padded message |
| Sha1.SwapReverses | src/hash/sha1.cpp:148-155 | the byte swap makes little-endian memory hold a register most significant byte first |
| Sha1.WriteOut | src/hash/sha1.cpp:144-159 | the registers in bytes, most significant first |
| Sha1.Digest | src/hash/sha1.cpp:87-159 | however a message is cut into updates, the digest bytes are those of the padded message, the standard one below 4 GiB |
| Sha1Example.TestVector | tests/unit_test_hash.cpp:58-69 | the digest of the bytes of test, from padding to output, is the one the tests of the library expect |
| Utf8.Lead3Table | include/common/icu_utf.h:119-126 | the 16-entry bit table allows exactly the second bytes of table 3-7 of the Unicode Standard for three-byte leads |
| Utf8.Lead4Table | include/common/icu_utf.h:136-143 | so does the other bit table for four-byte leads |
| Utf8.NextCharSafeBody | src/icu_utf.cpp:67-121 | code point or error, and index, as table 3-7 says, without reading past the length |
| Utf8.NextChar | include/common/icu_utf.h:230-250 | the inlined cases and the function call together do the same, except that an index overflows at a three-byte lead that is the last of 2^31 - 1 bytes |
| Utf8.NextInvertsEncode | include/common/icu_utf.h:230-282 | the reader returns what the writer wrote and stops right after it, whatever follows |
| Utf8.NextIsEncode | src/icu_utf.cpp:67-121 | what is read without error is the encoding of a scalar value: no overlong form, no surrogate, nothing above U+10FFFF |
| Utf8.NextStopsAtLead | src/icu_utf.cpp:67-121 | reading never looks behind a byte that is not a trail byte |
| Utf8.ErrorIsMaximalSubpart | src/icu_utf.cpp:67-121 | an error consumes one byte or exactly the longest beginning of a character found there, all of it trail bytes after the first; no character starts there |
| Utf8.ReadsTrails | src/icu_utf.cpp:67-121 | whatever is read, only trail bytes are consumed after the first |
| Utf8.DecodeInvertsEncode | include/common/icu_utf.h:230-282 | a whole encoded text reads back |
| Utf8.EncodeKeepsOrder | include/common/icu_utf.h:264-282 | encodings sort by their bytes as the characters do, which with the table of well-formed sequences leaves no other encoding |
| Utf8.WellFormedIffNoError | src/icu_utf.cpp:67-121 | a text reads without error if and only if it encodes scalar values, and then encoding them gives the text |
| Utf8.DecodeConcat | src/icu_utf.cpp:67-121 | at every byte that is not a trail byte the reader is in step again, whatever damage precedes |
| Utf8.DecodeAfterClean | src/icu_utf.cpp:67-121 | text read without error reads the same whatever follows |
| Utf16.Next16InvertsEncode | include/common/icu_utf.h:427-435 | a written code point reads back, through a surrogate pair above U+FFFF |
| Utf16.Next16IsEncode | src/utf_string_conversion_utils.cpp:54-71 | what is read without error is the encoding of a scalar value |
| Utf16.PairsKeepOrder | include/common/icu_utf.h:427-435 | characters above U+FFFF are pairs of a lead and a trail surrogate that sort as the characters do |
| Utf16.PairedIffNoError | src/utf_string_conversion_utils.cpp:54-71 | a text reads without error if and only if every lead surrogate is followed by a trail one and every trail one preceded by a lead |
| Transcode.ReadCharacter8 | src/utf_string_conversion_utils.cpp:38-52 | one character or error from bytes, the index left on the last byte consumed; the same exception |
| Transcode.ReadCharacter16 | src/utf_string_conversion_utils.cpp:54-71 | one character or error from 16-bit units, the index left on the last unit consumed |
| Transcode.WriteCharacter8 | src/utf_string_conversion_utils.cpp:86-104 | resizing, writing in place and cutting back appends exactly the encoding and returns its length |
| Transcode.WriteCharacter16 | src/utf_string_conversion_utils.cpp:106-117 | appends exactly the one or two units of the code point |
| Transcode.Convert8To16 | src/utf_string_conversions.cpp:44-60 | up to the length cast to 32 bits: the output encodes the text with one U+FFFD for each error; the flag is true if and only if the text is well-formed; not defined exactly where such a lead byte is the last of 2^31 - 1 |
| Transcode.Convert16To8 | src/utf_string_conversions.cpp:44-60 | the same in the other direction; the flag is true if and only if every surrogate is paired |
| Transcode.ConversionRightIff8 | src/utf_string_conversions.cpp:44-60 | output and flag are defined and right on every text of n bytes if and only if n is below 2^31 - 1 |
| Transcode.ConversionRightIff16 | src/utf_string_conversions.cpp:44-60 | for texts of n units, if and only if n is below 2^31 |
| Transcode.SpoiltIsMisread | src/utf_string_conversions.cpp:47-49 | an input of 2^31 bytes or more that is reported well formed, is not, and loses its end |
| Transcode.Spoilt16IsMisread | src/utf_string_conversions.cpp:47-49 | the same in 16-bit units |
| Transcode.ProgramRoundTrip8 | src/utf_string_conversions.cpp:44-60 | the two conversions one after the other, with their casts, are the identity exactly on well-formed text of fewer than 2^31 bytes |
| Transcode.ProgramRoundTrip16 | src/utf_string_conversions.cpp:44-60 | the other way round, exactly on paired text whose UTF-8 form has fewer than 2^31 bytes |
| Transcode.RepairedFront | src/utf_string_conversions.cpp:44-60 | the front of a well-formed text, cut anywhere and repaired, grows by at most six bytes |
| Transcode.LongTextIsCut | src/utf_string_conversions.cpp:47-49 | 2^30 units of U+0800 are cut on the way back |
| Transcode.OutputWellFormed16 | src/utf_string_conversions.cpp:44-60 | on any input the output is well-formed and says what the input says |
| Transcode.OutputWellFormed8 | src/utf_string_conversions.cpp:44-60 | the same for output in bytes |
| Transcode.RoundTrip8 | src/utf_string_conversions.cpp:44-60 | to UTF-16 and back is the identity exactly on well-formed bytes |
| Transcode.RoundTrip16 | src/utf_string_conversions.cpp:44-60 | to UTF-8 and back is the identity exactly on paired text |
| Transcode.WellFormedSurvives | src/utf_string_conversions.cpp:49-57 | well-formed text converts as if it stood alone, whatever bytes stand before and after it |
| Truncate.IsStringUtf8 | src/string_util.cpp:382-395 | up to the length cast to 32 bits: accepts exactly the text that reads as characters throughout; not defined exactly where only characters precede a three-byte lead that is the last of 2^31 - 1 bytes |
| Truncate.AcceptanceRightIff | src/string_util.cpp:382-395 | the verdict is defined and right on every text of n bytes if and only if n is below 2^31 - 1 |
| Truncate.AcceptedIsEncoding | src/string_util.cpp:382-395 | that is the encoding of scalar values that are not noncharacters |
| Truncate.AcceptedConcat | src/string_util.cpp:382-395 | accepted text followed by more is accepted exactly when the rest is |
| Truncate.AcceptedCut | src/string_util.cpp:382-395 | accepted text may be cut before every byte that is not a trail byte |
| Truncate.Noncharacters | include/common/utf_string_conversion_utils.h:42-48 | the scalar values left out are U+FDD0 to U+FDEF and the last two of each plane |
| Truncate.TruncateToByteSize | src/string_util.cpp:256-291 | with the limit cast to 32 bits: a prefix within the limit, of accepted text the longest accepted one; not defined exactly where the debug check ends the program, the cast gives -2^31, or a three-byte lead stands before a limit of 2^31 - 1 |
| Truncate.TruncationRightIff | src/string_util.cpp:256-291 | every accepted text is cut to its longest accepted prefix within a limit if and only if the limit is below 2^31 - 1 |
| Truncate.NoAcceptedPrefixIsLonger | src/string_util.cpp:256-291 | on any input, accepted or not, no accepted prefix within the limit is longer than the result |
| Truncate.TruncationIsLongestPrefix | src/string_util.cpp:256-291 | the backward search on accepted text ends on the last character boundary within the limit |
| StringPiece.Search | src/string_piece.cpp:126-136 | the first place where the substring occurs, or the end |
| StringPiece.Find | src/string_piece.cpp:126-136 | the first occurrence from a position on, or not found |
| StringPiece.FindChar | src/string_piece.cpp:146-154 | the first such character from a position on, or not found |
| StringPiece.LookupTable | src/string_piece.cpp:48-54 | the table marks exactly the wanted characters |
| StringPiece.FindFirstOf | src/string_piece.cpp:213-231 | the first position that holds one of the characters, or not found |
| StringPiece.FindFirstNotOf | src/string_piece.cpp:243-265 | the first position from a start on that holds none of the characters, or not found; 0 when there are none |
| StringPiece.FindFirstOther | src/string_piece.cpp:288-300 | the first position from a start on with another character, or not found |
| StringPiece.FindLastNotOf | src/string_piece.cpp:354-381 | the last position up to a limit that holds none of the characters, or not found |
| StringPiece.Trim | src/string_util.cpp:239-246 | white space is dropped from the chosen ends, also when nothing else is left and the end position wraps to zero |
| StringPiece.TrimmedCore | src/string_util.cpp:239-246 | trimming removes only white space, from the ends, until none is left there |
| SplitJoin.SplitString | src/string_split.cpp:59-90 | the pieces between delimiter characters, trimmed and filtered as asked; nothing for empty text |
| SplitJoin.SplitStringUsingSubstr | src/string_split.cpp:117-144 | the pieces between whole delimiters, trimmed and filtered as asked; the text itself for an empty delimiter |
| SplitJoin.Emit | src/string_split.cpp:83-87 | a piece is trimmed if asked, and appended unless it is empty and empty pieces are not wanted |
| SplitJoin.KeptAll | src/string_split.cpp:83-87 | when all pieces are wanted each is there, in order, trimmed if asked for |
| SplitJoin.KeptNonEmpty | src/string_split.cpp:83-87 | when empty ones are not, none is empty and the rest joins to the same text |
| SplitJoin.WhitespaceIs | src/string_util_constants.cpp:62-69 | ASCII white space is U+0009 to U+000D and U+0020 |
| SplitJoin.JoinStrings | src/string_util.cpp:617-642 | the parts with separators between them |
| SplitJoin.JoinLength | src/string_util.cpp:622-640 | the size reserved beforehand is the size of the result |
| SplitJoin.JoinUndoesSplit | src/string_split.cpp:117-144 | joining the pieces restores the text, for every text and every delimiter |
| SplitJoin.SplittersAgree | src/string_split.cpp:59-90 | the two splitters agree on one delimiter character in every mode; on empty text they differ by one empty piece |
| SplitJoin.JoinUndoesSplitString | src/string_split.cpp:59-90 | joining the pieces of the character splitter restores the text |
| SplitJoin.SplitUndoesJoin | src/string_split.cpp:117-144 | splitting a join restores the parts if and only if no delimiter begins inside a part, not even one that the next delimiter completes; with an empty delimiter, if there is one part |
| SplitJoin.SeparableByCharacter | src/string_split.cpp:117-144 | for a one-character delimiter that is: there are parts and none contains it |
| SplitJoin.SplitStringUndoesJoin | src/string_split.cpp:59-90 | the character splitter restores the parts if and only if none contains the delimiter and they are not a single empty part |
| SplitJoin.OverlapLosesParts | src/string_split.cpp:117-144 | with a longer delimiter, parts free of it can still be lost |
| Collapse.CollapseWhitespace | src/string_util.cpp:307-345 | the single pass yields the maximal runs without white space, one space between them or nothing where trimming meets a line break; defined exactly when result and a last space that is taken back have fewer than 2^31 characters, so that the `int` write index does not overflow |
| Collapse.WordStep | src/string_util.cpp:330-335 | a character that is not white space is written, behind a space that was pending |
| Collapse.GapStep | src/string_util.cpp:319-329 | a white space character adds nothing, and a line break turns the gap into nothing when trimming |
| Collapse.NeededIsPeak | src/string_util.cpp:317-342 | how far the write index gets is the length of the result, and one more when white space follows it |
| Collapse.DefinedIff | src/string_util.cpp:317-342 | defined on every text of n characters if and only if n is below 2^31 |
| Collapse.EndsAreDropped | src/string_util.cpp:307-345 | white space at either end is dropped |
| Collapse.GapBecomes | src/string_util.cpp:318-336 | a gap between words becomes U+0020, or nothing exactly when trimming and it has U+000A or U+000D; what follows is collapsed by itself |
| Collapse.ToComeStep | src/string_util.cpp:318-336 | what each character adds to the output, for every setting of the two flags |
| Collapse.UnchangedIffTidy | src/string_util.cpp:307-345 | the result has only single inner spaces, and a text is left alone if and only if it has |
| Collapse.Idempotent | src/string_util.cpp:307-345 | collapsing twice is collapsing once, in any combination of modes |
| Collapse.KeepsLetters | src/string_util.cpp:307-345 | only white space is removed |
| WorkQueue.TasksRunInOrder | src/libev/event_loop.cpp:72-108 | in every interleaving the tasks that the run appends are those executed, then the rest of the batch, then the queue, in order; those it runs at once on the loop thread are exactly its direct ones |
| WorkQueue.RunRecords | src/libev/event_loop.cpp:72-108 | from any state, a run records the tasks it appends and those it runs at once, in order and nothing else, and is started exactly if it was or starts |
| WorkQueue.DirectsAside | src/libev/event_loop.cpp:268-275 | tasks run at once leave everything else alone: without them the run is still possible and ends the same |
| WorkQueue.StepConserves | src/libev/event_loop.cpp:72-108 | each step of a pusher or of the loop keeps that account |
| WorkQueue.StepKeepsAwake | src/libev/event_async.cpp:69-75 | each step keeps a waiting entry provided for |
| WorkQueue.RunKeepsAwake | src/libev/event_async.cpp:69-75 | once started and awake, a non-empty queue always has a pending notification, a pusher about to notify, or a callback before its swap |
| WorkQueue.AwakeIffNothingForgotten | src/libev/event_loop.cpp:277-295 | no wakeup is ever lost after the start if and only if at the start the queue is empty or a pusher has still to notify |
| WorkQueue.NoPushNothingForgotten | src/libev/event_loop.cpp:277-295 | which holds when every push begins after the start |
| WorkQueue.ForgottenWaits | src/libev/event_async.cpp:69-75 | otherwise the loop has nothing to do and what was queued waits until another push begins |
| WorkQueue.EarlyPushIsForgotten | src/libev/event_async.cpp:69-75 | one push completed before the start is such a case |
| WorkQueue.EveryTaskRuns | src/libev/event_loop.cpp:72-108 | the steps that are not new work are bounded beforehand, and when none is left every task appended has run, in order |
| WorkQueue.StuckIsDone | src/libev/event_loop.cpp:72-108 | a started queue where only new work is possible has run everything |
| WorkQueue.NothingLeftUndone | src/libev/event_loop.cpp:72-108 | a run that ends awake with only new work possible has executed exactly the tasks it appended, in order |
| WorkQueue.AsyncCustom.constructor | src/libev/event_loop.cpp:75-75 | nothing queued, no watcher |
| WorkQueue.AsyncCustom.StartWatcher | src/libev/event_async.cpp:53-59 | the watcher starts |
| WorkQueue.AsyncCustom.Signal | src/libev/event_async.cpp:69-75 | a notification has no effect without a started watcher |
| WorkQueue.AsyncCustom.Push | src/libev/event_loop.cpp:77-83 | the function is appended and the watcher is notified; as steps, an append and a notification |
| WorkQueue.AsyncCustom.ExecInLoopThread | src/libev/event_loop.cpp:268-275 | on the loop thread the function runs at once and queue and notification stay as they are; elsewhere it is pushed and not run |
| WorkQueue.AsyncCustom.Pop | src/libev/event_loop.cpp:94-105 | the swapped-out batch is run in order and the queue is left empty |
| WorkQueue.AsyncCustom.Dispatch | src/libev/event_loop.cpp:85-105 | a turn of the loop runs the whole queue in order and leaves none; as steps, a wake, a swap, a run of each task and a return |

## Left out

- HpackIndex.Encoder.Deflate: the bytes of literals, with their Huffman coding, are not modelled; a literal is known by the index of its name, its mode and the length of its strings. Neither is the mark it leaves after a failure.
- HpackBlock.Decoder.Inflate: the states that read the strings of a literal and the table size update are not modelled; such opcodes end the call as `Other`.
- HpackLiteral.LiteralSurvivesIff: that a Huffman-coded value reads back as it was is taken for granted; the codes enter only with their lengths.
- HpackBlock.Decoder.CommitNewName: how long the entry it inserts stays alive is not modelled, so nothing is claimed about calls that follow a literal.
- HpackBlock.Decoder.CommitIndexedName: the same.
- HpackRing.Ring.constructor: a failed allocation, after which the ring has no buffer, is not modelled.
- HpackInteger.FragmentsAgree: an input with more than five continuation bytes can run into a shift the language leaves undefined, and nothing is claimed about it.
- The minimum-size bookkeeping of the deflater, which would add only further calls of the resize step.
- The FNV name hash of the encoder: any hash function is allowed in its place.
- Wildcard.MatchPattern: the variant for 16-bit text is not modelled.
- PrintNumber.IntToString: types of one byte are excluded, since the library has no such instance.
- Md5.Digest: the block function is a parameter.
- Sha256.Digest: the block function is a parameter.
- Utf8.NextCharSafeBody: strict mode only, which is what the conversions use; the lenient and obsolete modes, and 32-bit wide strings, are not modelled.
- Collapse.CollapseWhitespace: which characters are white space is a parameter.
- WorkQueue.EveryTaskRuns: the loop is taken to be scheduled; fairness of the operating system is not modelled. libev is one pending flag.
- Timers, child processes, sockets, files, logging: calls into the operating system.
- `src/draw`, `src/compress`, `src/value.cpp`, HTML escaping, HTTP/1 parsing: short arithmetic, foreign libraries, tables and accessors that would add only easy members.
