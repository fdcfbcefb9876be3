# A verified model of the comm layer

A Dafny model of the byte-level and arithmetic code under the networking of this repository, with
proofs about every input, every run or every cut of the byte stream. Code that changes things step by
step is modelled as methods, loops, arrays and classes, each proved against a specification function,
and the lemmas are about those functions. `dafny verify dfyconfig.toml` checks all of it.

| file | models |
|---|---|
| `Rational.dfy` | exact rationals that stay in lowest terms without renormalising, continued-fraction comparison |
| `Adler32.dfy` | blocked checksum with deferred reduction, `adler32_combine`, error detection |
| `AutoBuffer.dfy` | growable buffer with a cursor, as a byte sequence and as a FIFO queue |
| `Framing.dfy`, `Packer.dfy`, `LonglinkPacker.dfy` | framed packets and cutting a stream back into them |
| `Md5.dfy` | streaming digest over an arbitrary block function |
| `MemPool.dfy`, `ChildList.dfy` | the XML library's free-list allocator and its doubly linked child lists |
| `XmlText.dfy`, `XmlCollapse.dfy`, `XmlReferences.dfy`, `XmlParser.dfy`, `XmlPrinter.dfy`, `XmlRoundTrip.dfy`, `XmlRefusals.dfy` | XML parser, in-place text flushing and collapsing, compact printer, round trip, refusals |
| `HttpText.dfy`, `HttpFields.dfy`, `HttpParser.dfy`, `HttpStreaming.dfy`, `HttpCuts.dfy`, `HttpMessages.dfy`, `HttpBuilder.dfy` | streaming HTTP receiver, exactly which cuts matter, chunk encoder, message builder |
| `FrequencyLimit.dfy` | call limiter against its whole history |
| `Alarm.dfy` | alarm protocol under any interleaving |
| `Ini.dfy` | INI store: save, then parse |
| `Seqs.dfy`, `Bytes.dfy`, `Strings.dfy`, `Options.dfy` | shared: sequences, byte order, C strings |

Numbers are unbounded unless a width is written out: 32 bits in the checksum, the packet headers, the
MD5 counter, the chunk header and the XML character references, 64 bits in the limiter's clock and in
`strtol`. Clocks, delivered messages, new memory blocks, file contents and the pieces the network
delivers are parameters. A `char` is one byte.

The HTTP receiver takes the readers of its texts (first line, header fields, framing, chunk size) as a
value of type `Grammar`. Everything about cutting the stream is proved for every such value; `HTTP` is
the one with the source's own readers, and `HttpBuilder` states the results for it.

## Findings

Where a natural property does not hold of the code, the code is kept, a lemma names an input, and an
if-and-only-if says when the property holds.

- `adler32_combine` subtracts with `>` instead of `>=`, so a zero component comes out as 65521
  (`Adler32.CombineCorrect`, input: `Adler32.CombineOfNothing`).
- `adler32` of a single byte reduces the second sum once, which is not enough for a start value above
  the modulus (`Adler32.Adler32`, input: `Adler32.OvershootExists`).
- A stored packet hash of zero switches the check off (`Packer.CorruptionDetected`, input:
  `Packer.ZeroHashExists`).
- `InsertAfterChild` breaks the lists, or writes through a null pointer, for two kinds of node that
  already are children (`ChildLists.UnsafeInsertFails`).
- An unknown XML entity after a shortened one keeps a stale character instead of its ampersand
  (`XmlText.FlushMeans`, input: `XmlText.UnknownEntityKeepsStale`).
- A closing tag that closes nothing ends an XML document without an error (`XmlRefusals.StrayCloseEnds`).
- What the HTTP receiver makes of a stream depends on the cut in four cases and no others
  (`HttpCuts.CutExactly`):
  - an empty line right behind the first line (`HttpCuts.EmptyLineLater`: every first line);
  - a first line over the limit (`HttpCuts.FirstLineLimit`, input: `HttpBuilder.LongUrl`);
  - a header block over the limit (`HttpCuts.HeaderLimit`, inputs: `HttpBuilder.LongField`);
  - a body that only the closing of the connection ends (inputs: `HttpBuilder.CloseLosesBody`).
- A status line's reason phrase of more than one word is dropped (`HttpBuilder.ReasonRead`, input:
  `HttpBuilder.NotFoundIsDropped`).
- A stream body with an empty chunk ends there (`HttpMessages.EmptyChunkStops`).
- The INI store's `Set` admits an entry one character longer than `Parse` can read back, and a lost
  bracket then ends the section for the parser (`Ini.RoundTrip`, input: `Ini.OneTooMany`).

## Model

| member | source | states |
|---|---|---|
| `Rationals.Rational.Make` | marsksim/boost/rational.hpp:544-577 | from any numerator and non-zero denominator, a positive denominator, lowest terms and the same value; null exactly for a zero denominator |
| `Rationals.Rational.AddAssign` | marsksim/boost/rational.hpp:279-311 | the exact sum, again in lowest terms with positive denominator although nothing is renormalised; self-addition included |
| `Rationals.Rational.SubtractAssign` | marsksim/boost/rational.hpp:314-330 | the exact difference in lowest terms; self-subtraction included |
| `Rationals.SumInLowestTerms` | marsksim/boost/rational.hpp:284-297 | the informal proof of the comment: dividing by the gcd of the sum and the old gcd leaves numerator and denominator coprime |
| `Rationals.Rational.MultiplyAssign` | marsksim/boost/rational.hpp:333-345 | the exact product in lowest terms after cross-cancelling only; self-multiplication included |
| `Rationals.ProductInLowestTerms` | marsksim/boost/rational.hpp:333-345 | cancelling each numerator against the other denominator leaves the product coprime |
| `Rationals.Rational.DivideAssign` | marsksim/boost/rational.hpp:348-374 | fails exactly for a zero divisor and then changes nothing; otherwise the exact quotient in lowest terms; self-division included |
| `Rationals.Rational.LessThan` | marsksim/boost/rational.hpp:414-495 | the continued-fraction loop ends and answers exactly whether n1*d2 < n2*d1, for every sign |
| `Rationals.Rational.LessThanInt` | marsksim/boost/rational.hpp:498-513 | the floor alone decides num < i*den |
| `Rationals.Rational.Equals` | marsksim/boost/rational.hpp:521-526 | comparing components is comparing values |
| `Rationals.LowestTermsUnique` | marsksim/boost/rational.hpp:521-526 | a value has one representation in lowest terms |
| `Rationals.InnerGcdMagnitude` | marsksim/boost/rational.hpp:231-234 | the recursive gcd is the greatest common divisor up to sign, for all signs of its arguments |
| `Rationals.IsNormalizedDecides` | marsksim/boost/rational.hpp:247-253 | is_normalized holds exactly in lowest terms with positive denominator |
| `Adler32.Adler32` | marsksim/comm/adler32.c:56-124 | from any start value, the one-byte, short and blocked branches give the byte-at-a-time checksum of section 9 of RFC 1950; the one exception, which takes a start value no checksum has, is stated with its exact excess; a null buffer gives 1 |
| `Adler32.CanonicalNeverOvershoots` | marsksim/comm/adler32.c:68-77 | the exception never concerns a start value that is a checksum |
| `Adler32.OvershootExists` | marsksim/comm/adler32.c:68-77 | a start value and a byte of the exception |
| `Adler32.DeferredReduction` | marsksim/comm/adler32.c:95-120 | reducing only after a block gives the same sums as reducing after every byte |
| `Adler32.BlockFitsIn32Bits` | marsksim/comm/adler32.c:10-12 | no sum inside a block of at most NMAX bytes exceeds 32 bits, from any start value |
| `Adler32.NmaxIsLargest` | marsksim/comm/adler32.c:10-12 | over one byte more, the unreduced second sum of some canonical start leaves 32 bits |
| `Adler32.ModChainIsRemainder` | marsksim/comm/adler32.c:15-53 | a subtraction chain is the remainder on every value in its range |
| `Adler32.Mod` | marsksim/comm/adler32.c:15-53 | MOD is the remainder with and without NO_DIVIDE for every 32-bit value |
| `Adler32.Mod4` | marsksim/comm/adler32.c:15-53 | MOD4 is the remainder on every value the short branch gives it |
| `Adler32.ChecksumAppend` | marsksim/comm/adler32.c:56-124 | continuing a checksum over y is the checksum of x ++ y, from any start value |
| `Adler32.Combine` | marsksim/comm/adler32.c:127-148 | the step-by-step arithmetic computes the combined components, each in 1..65521 |
| `Adler32.CombineCorrect` | marsksim/comm/adler32.c:127-148 | combined components are congruent to those of x ++ y, and the result is exact if and only if neither sum of the arguments is a multiple of 65521, which is when neither true component is zero |
| `Adler32.CombineOfNothing` | marsksim/comm/adler32.c:143-146 | two empty parts, whose combination is not the checksum of their concatenation |
| `Adler32.CombinedStaysCombinable` | marsksim/comm/adler32.c:127-148 | combinations can be combined again |
| `Adler32.OneByteDetected` | marsksim/comm/adler32.c:56-124 | changing any one byte changes the checksum |
| `Adler32.KnownChecksum` | marsksim/comm/adler32.c:56-124 | two checksums as numbers, the first sum in the low half |
| `AutoBuffers.AutoBuffer.FitSize` | marsksim/comm/autobuffer.cc:296-320 | capacity covers the request, contents and cursor unchanged |
| `AutoBuffers.AutoBuffer.WriteAt` | marsksim/comm/autobuffer.cc:100-108 | the contents become the old ones with the data spliced in at the offset |
| `AutoBuffers.AutoBuffer.Write` | marsksim/comm/autobuffer.cc:81-95 | splices at the cursor and moves the cursor behind the data |
| `AutoBuffers.AutoBuffer.AllocWrite` | marsksim/comm/autobuffer.cc:66-71 | makes room, and extends the length only when asked |
| `AutoBuffers.AutoBuffer.Seek` | marsksim/comm/autobuffer.cc:190-214 | the cursor is clamped into the contents |
| `AutoBuffers.AutoBuffer.SetLength` | marsksim/comm/autobuffer.cc:216-222 | length and cursor within the capacity, the common prefix kept |
| `AutoBuffers.AutoBuffer.Move` | marsksim/comm/autobuffer.cc:172-188 | a positive move opens a gap in front, a negative one drops that many bytes, the cursor follows its byte |
| `AutoBuffers.AutoBuffer.Append` | marsksim/comm/autobuffer.cc:81-84 | with the cursor at the end, writing is enqueuing |
| `AutoBuffers.AutoBuffer.Consume` | marsksim/comm/autobuffer.cc:172-188 | Move(-n) is dequeuing n bytes, and the cursor stays at the end |
| `AutoBuffers.AutoBuffer.AttachFrom` | marsksim/comm/autobuffer.cc:263-272 | takes over contents and cursor, and leaves the other buffer empty |
| `Packer.Pack` | marsksim/comm/basepacker.cc:144-172 | writes exactly the packet at the buffer's cursor |
| `Packer.ComputeHash` | marsksim/comm/basepacker.cc:159-163 | chaining the checksum over url and data is the checksum of their concatenation |
| `Packer.UnpackInto` | marsksim/comm/basepacker.cc:174-202 | every result code and field; on success, and only then, the body is written at the cursor and the cursor moves behind it |
| `Packer.Verdicts` | marsksim/comm/basepacker.cc:174-196 | which bytes of a header give which refusal or request for more |
| `Packer.UnpackPacked` | marsksim/comm/basepacker.cc:144-202 | a packet followed by anything unpacks to its fields, body and length if and only if its total is at most 1 MiB |
| `Packer.UrlArrives` | marsksim/comm/basepacker.cc:144-202 | a url of at most 128 bytes arrives as it was sent, a longer one cut to 128 |
| `Packer.PrefixContinues` | marsksim/comm/basepacker.cc:174-202 | every proper prefix of a packet only asks for more |
| `Packer.DeframePackets` | marsksim/comm/basepacker.cc:174-202 | any concatenation of packets with a partial one behind it deframes to the original list and leaves the partial one |
| `Packer.DeframeMessages` | marsksim/comm/basepacker.cc:144-202 | any list of messages with urls of at most 128 bytes, packed and concatenated, deframes to the same urls, numbers and data |
| `Packer.UnpackStable` | marsksim/comm/basepacker.cc:174-202 | once a result is final, the errors included, later bytes do not change it |
| `Packer.PacketsCutIndependent` | marsksim/comm/basepacker.cc:174-202 | whatever the cut of any byte stream, the same packets come out |
| `Packer.CorruptionDetected` | marsksim/comm/basepacker.cc:159-198 | one changed url or data byte makes unpacking an error if and only if the stored hash is not zero |
| `Packer.ZeroHashExists` | marsksim/comm/basepacker.cc:198 | a packet whose true hash is zero, so that it is not checked |
| `Packer.HeaderByteDetected` | marsksim/comm/basepacker.cc:174-190 | one changed header byte is refused for its magic if and only if it is the magic, a short length or the low byte of the total |
| `Packer.KnownPacket` | marsksim/comm/basepacker.cc:144-172 | a packet byte by byte |
| `LonglinkPacker.Pack` | iOS/im/ksim_longlink_packer.cc:124-147 | writes exactly header and body, and nothing else of the buffer changes |
| `LonglinkPacker.UnpackInto` | iOS/im/ksim_longlink_packer.cc:59-165 | every result code and field, and the body written only on success |
| `LonglinkPacker.Verdicts` | iOS/im/ksim_longlink_packer.cc:88-121 | which bytes of a header give a refusal or a request for more |
| `LonglinkPacker.HeaderFields` | iOS/im/ksim_longlink_packer.cc:124-133 | where each of the five header words stands, the version included |
| `LonglinkPacker.KnownPackage` | iOS/im/ksim_longlink_packer.cc:124-147 | a package byte by byte |
| `LonglinkPacker.UnpackPacked` | iOS/im/ksim_longlink_packer.cc:59-165 | a package followed by anything unpacks to its fields, body and exact length, up to 1 MiB |
| `LonglinkPacker.PrefixContinues` | iOS/im/ksim_longlink_packer.cc:59-121 | every proper prefix only asks for more |
| `LonglinkPacker.UnpackStable` | iOS/im/ksim_longlink_packer.cc:59-165 | once a result is final, the refusal included, later bytes do not change it |
| `LonglinkPacker.DeframePackages` | iOS/im/ksim_longlink_packer.cc:59-165 | any concatenation of packages deframes to the original list |
| `LonglinkPacker.PackagesCutIndependent` | iOS/im/ksim_longlink_packer.cc:59-165 | whatever the cut, the same packages come out |
| `Md5.Context.Process` | marsksim/comm/md5.c:194-250 | chaining state, partial block and bit counter all follow the bytes seen so far |
| `Md5.CounterCorrect` | marsksim/comm/md5.c:204-210 | the two 32-bit words with their carry test hold the bit count modulo 2^64 |
| `Md5.Context.Finish` | marsksim/comm/md5.c:260-287 | the digest of the padded message of sections 3.1 and 3.2 of RFC 1321, through one or two final blocks |
| `Md5.PaddingBlocks` | marsksim/comm/md5.c:260-280 | filling the buffered block in place digests the same blocks as padding the whole message |
| `Md5.DigestPieces` | marsksim/comm/md5.c:185-301 | any sequence of pieces gives the digest of their concatenation |
| `Md5.PaddingShape` | marsksim/comm/md5.c:260-280 | one bit, then the fewest zeros that fill the last block, then eight bytes whose value, low-order byte first, is the bit count modulo 2^64 |
| `Md5.LittleEndianValue` | marsksim/comm/md5.c:253-257 | the value of the stored bytes, the first one worth 1, is the number |
| `Md5.KnownBytes` | marsksim/comm/md5.c:13-15 | the digest of no blocks and the length of three bytes, byte by byte |
| `MemPools.MemPool.Alloc` | marsksim/comm/tinyxml2.h:351-375 | hands out an item that is not live, from the free list or from a new block; the invariant of the list and the partition is kept |
| `MemPools.MemPool.Free` | marsksim/comm/tinyxml2.h:377-388 | the item goes from the live set to the top of the free list |
| `MemPools.MemPool.LiveCount` | marsksim/comm/tinyxml2.h:326-388 | the counter is the number of live items in every valid state |
| `MemPools.MemPool.Overwrite` | marsksim/comm/tinyxml2.h:377-388 | whatever a client writes into a live item, the free list is untouched |
| `MemPools.MemPool.Clear` | marsksim/comm/tinyxml2.h:331-344 | no blocks and no live items remain, and the pool can be used again |
| `MemPools.PartitionCount` | marsksim/comm/tinyxml2.h:326-388 | when free and live items partition the items of all blocks, the live ones are as many as the others leave |
| `ChildLists.Document.Unlink` | marsksim/comm/tinyxml2.cc:769-788 | removes the child from its parent's sequence, all other sequences unchanged |
| `ChildLists.Document.InsertEndChild` | marsksim/comm/tinyxml2.cc:801-828 | detaches the node and appends it |
| `ChildLists.Document.InsertFirstChild` | marsksim/comm/tinyxml2.cc:831-859 | detaches the node and prepends it |
| `ChildLists.Document.InsertAfterChild` | marsksim/comm/tinyxml2.cc:862-888 | refuses exactly when the anchor is not a child here; otherwise detaches the node and puts it behind the anchor |
| `ChildLists.UnsafeInsertFails` | marsksim/comm/tinyxml2.cc:880-885 | the calls that InsertAfterChild excludes all fail: a node behind itself leaves links that represent no lists, and the last child behind its neighbour is written through a null pointer |
| `ChildLists.Document.Forward` | marsksim/comm/tinyxml2.cc:769-888 | following next from the first child reads the sequence |
| `ChildLists.Document.Backward` | marsksim/comm/tinyxml2.cc:769-888 | following prev from the last child reads it reversed |
| `ChildLists.UnlinkRepresents` | marsksim/comm/tinyxml2.cc:769-788 | the pointer updates of Unlink represent the sequences with the child removed |
| `ChildLists.InsertRepresents` | marsksim/comm/tinyxml2.cc:801-888 | pointer updates around a position represent the sequences with the node inserted there |
| `XmlText.StrPair.GetStr` | marsksim/comm/tinyxml2.cc:261-352 | in place and at first use, the C string becomes what the raw text stands for under the flags, white-space collapsing included; nothing outside the pair's range changes, a second call changes nothing |
| `XmlCollapse.CollapseWhitespace` | marsksim/comm/tinyxml2.cc:232-258 | the in-place loop leaves the collapsed text, from a moved start |
| `XmlCollapse.CollapsedWords` | marsksim/comm/tinyxml2.cc:232-258 | collapsing keeps the words and their order |
| `XmlCollapse.CollapsedTidy` | marsksim/comm/tinyxml2.cc:232-258 | collapsed text has no white space at its ends and single spaces inside |
| `XmlText.StrPair.Rewrite` | marsksim/comm/tinyxml2.cc:271-343 | the loop whose write pointer follows the read pointer through one array computes the flush |
| `XmlText.FlushedEscape` | marsksim/comm/tinyxml2.cc:261-352 | flushing undoes escaping for every text without CR and NUL |
| `XmlText.FlushedVerbatim` | marsksim/comm/tinyxml2.cc:261-352 | without entity processing such a text is kept |
| `XmlText.FlushMeans` | marsksim/comm/tinyxml2.cc:319-341 | the rewrite gives a text its meaning if and only if every unknown entity falls on a place that still holds an ampersand |
| `XmlText.UnknownEntityKeepsStale` | marsksim/comm/tinyxml2.cc:334-338 | a text where it does not |
| `XmlText.CharacterRef` | marsksim/comm/tinyxml2.cc:431-523 | a reference never stands for more bytes than it takes, so writing stays behind reading |
| `XmlReferences.ReferenceRead` | marsksim/comm/tinyxml2.cc:431-523 | the decimal and the hexadecimal reference to any 32-bit number are read as that number |
| `XmlReferences.BadReference` | marsksim/comm/tinyxml2.cc:431-523 | with another character in front of its semicolon, it is no reference and the ampersand stands for itself |
| `XmlReferences.UnendedReference` | marsksim/comm/tinyxml2.cc:431-523 | so it does without a semicolon |
| `XmlReferences.Utf8Decodes` | marsksim/comm/tinyxml2.cc:382-428 | the bytes written for a number below 0x200000 decode to it by section 3 of RFC 3629, and are as few as can be |
| `XmlReferences.ReferenceFlushed` | marsksim/comm/tinyxml2.cc:300-318 | flushing a reference to an ASCII character gives the character |
| `XmlReferences.NewlinesNormalised` | marsksim/comm/tinyxml2.cc:275-299 | whichever of the four line ends a text uses, it is flushed to line feeds |
| `XmlText.EscapeClean` | marsksim/comm/tinyxml2.cc:2222-2269 | escaped text has no '<', and escaped attribute values no quote |
| `XmlRefusals.KnownEscape` | marsksim/comm/tinyxml2.cc:2222-2269 | the five entities in attribute values, three of them in text |
| `XmlParser.SkipSpaces` | marsksim/comm/tinyxml2.h:531-547 | the pointer stops at the first character that is not white space |
| `XmlParser.ScanName` | marsksim/comm/tinyxml2.cc:212-229 | the longest name at the pointer, or none |
| `XmlParser.ScanText` | marsksim/comm/tinyxml2.cc:192-209 | the text before the first occurrence of the end tag, or failure if there is none |
| `XmlParser.ReadAttribute` | marsksim/comm/tinyxml2.cc:1269-1294 | name, equals sign and quoted value, as specified by ParseAttribute |
| `XmlParser.ReadAttributes` | marsksim/comm/tinyxml2.cc:1646-1700 | the loop reads the attributes up to the end of the tag and refuses a repeated name |
| `XmlParser.ReadNode` | marsksim/comm/tinyxml2.cc:631-702 | identifies the kind of node and parses it |
| `XmlParser.ReadVerbatim` | marsksim/comm/tinyxml2.cc:1121-1131 | comments, and likewise CDATA, declarations and unknowns, up to their footer |
| `XmlParser.ReadPlainText` | marsksim/comm/tinyxml2.cc:1056-1087 | text up to the next tag, which is left unread |
| `XmlParser.ReadElement` | marsksim/comm/tinyxml2.cc:1717-1742 | opening, sealed and closing tags, and the children of an open one |
| `XmlParser.ReadKids` | marsksim/comm/tinyxml2.cc:947-1032 | the loop over the children, with the closing tag handed to the parent and every mismatch refused |
| `XmlParser.ReadDocument` | marsksim/comm/tinyxml2.cc:2153-2164 | leading space and BOM skipped, an empty text refused, then the children |
| `XmlParser.AttributeNamePassed` | marsksim/comm/tinyxml2.cc:1664-1669 | when an attribute name is flushed to be compared, the parse position is behind the character that flushing overwrites |
| `XmlParser.ElementNamePassed` | marsksim/comm/tinyxml2.cc:1000-1017 | the same for element names and end tags |
| `XmlPrinter.Printer.PrintString` | marsksim/comm/tinyxml2.cc:2222-2269 | printing the runs between entities appends exactly the escaped text |
| `XmlPrinter.Printer.OpenElement` | marsksim/comm/tinyxml2.cc:2284-2300 | seals the parent's tag, prints the new one and pushes its name |
| `XmlPrinter.Printer.CloseElement` | marsksim/comm/tinyxml2.cc:2352-2375 | closes the innermost open element, sealed if it got no content |
| `XmlPrinter.Printer.Accept` | marsksim/comm/tinyxml2.cc:2494-2542 | walking any tree appends exactly the node's printed form |
| `XmlRoundTrip.NodePrinted` | marsksim/comm/tinyxml2.cc:947-1032 | any well-formed node, printed and followed by other text, parses to itself and leaves that text |
| `XmlRoundTrip.KidsPrinted` | marsksim/comm/tinyxml2.cc:947-1032 | printed children are read one after the other up to what follows them |
| `XmlRoundTrip.RoundTrip` | marsksim/comm/tinyxml2.cc:2153-2164 | parsing the compact printing of any valid document, of unbounded depth and width, returns the same document |
| `XmlRefusals.ElementClosed` | marsksim/comm/tinyxml2.cc:996-1029 | an element with any attributes and children whose closing tag has another name is a mismatch; with its own name it is a child, also when it is empty |
| `XmlRefusals.MismatchRefused` | marsksim/comm/tinyxml2.cc:1000-1027 | such a document is refused as mismatched |
| `XmlRefusals.UnclosedRefused` | marsksim/comm/tinyxml2.cc:969-977 | an element whose text ends before its closing tag is refused, with the error for each way it can end |
| `XmlRefusals.StrayCloseEnds` | marsksim/comm/tinyxml2.cc:997-1005 | a closing tag that closes nothing ends the document without an error, and nothing behind it is parsed |
| `XmlRefusals.LateDeclaration` | marsksim/comm/tinyxml2.cc:979-988 | a declaration behind another node is refused |
| `XmlRefusals.EmptyRefused` | marsksim/comm/tinyxml2.cc:2158-2163 | white space alone, also with a byte order mark, is an empty document |
| `XmlRefusals.AttributeSpelled` | marsksim/comm/tinyxml2.cc:1269-1294 | either quote, and any white space around the equals sign |
| `XmlRefusals.BlankInTag` | marsksim/comm/tinyxml2.cc:1652-1656 | any white space in front of an attribute or of a tag's end |
| `XmlRefusals.RepeatedRefused` | marsksim/comm/tinyxml2.cc:1664-1671 | an attribute name that occurs twice, whatever the values and whatever stands between, is refused |
| `HttpText.Search` | marsksim/comm/http.cc:40-65 | the first occurrence before the first NUL, or none |
| `HttpText.StrNStrExtends` | marsksim/comm/http.cc:40-65 | what is found stays where it is when more bytes arrive |
| `HttpText.NumeralReads` | marsksim/comm/http.cc:509-513 | a printed number is read back by strtol, in base 16 and 10 |
| `HttpText.ReadHeaders` | marsksim/comm/http.cc:78-106 | the loop over the lines computes ParseHeaders, which the next rows pin down |
| `HttpText.LowerSame` | marsksim/comm/http.cc:36-38 | names compare equal if and only if, place by place, they have the same character or the two cases of one ASCII letter |
| `HttpFields.SpacedLine` | marsksim/comm/http.cc:88-99 | name and value are what stands around the first colon, without the white space at their ends |
| `HttpFields.FirstValueStays` | marsksim/comm/http.cc:359-361 | a second field with a name, in whatever case, changes nothing |
| `HttpFields.LineWithoutColon` | marsksim/comm/http.cc:88-99 | such a line becomes a field whose name and value are both the line |
| `HttpFields.DroppedLines` | marsksim/comm/http.cc:88-99 | a name without a value, an empty line and colons alone are dropped |
| `HttpFields.SignedNumber` | marsksim/comm/http.cc:400-409 | a number may have white space and a sign in front |
| `HttpFields.PrefixedNumber` | marsksim/comm/http.cc:825 | a hexadecimal size may have a 0x in front and ends at the first other character |
| `HttpParser.Step` | marsksim/comm/http.cc:721-908 | a turn that goes on leaves fewer bytes and moves to the header fields, the body or the end, so the loop ends from every live state |
| `HttpParser.Parser.Receive` | marsksim/comm/http.cc:682-911 | the new state is the run on the old buffer and the new bytes, and the consumed count is what left the buffer |
| `HttpParser.Parser.TakeFirstLine` | marsksim/comm/http.cc:723-772 | limit, malformed line, empty line at once, or on to the header fields |
| `HttpParser.Parser.TakeHeaders` | marsksim/comm/http.cc:774-806 | limit, wait, or read the block and go on to the body |
| `HttpParser.Parser.TakeChunk` | marsksim/comm/http.cc:814-868 | wait for the whole chunk, refuse a missing CRLF, deliver the data, or end at the last chunk |
| `HttpParser.Parser.TakeBytes` | marsksim/comm/http.cc:869-892 | delivers no more than the content length and ends when it is reached |
| `HttpStreaming.RunTwice` | marsksim/comm/http.cc:682-911 | running, then running with more bytes, is running once with all of them, at any point of any message |
| `HttpStreaming.DeadExtends` | marsksim/comm/http.cc:808-897 | a body that is refused is refused in the same way, at the same place, when it goes on |
| `HttpStreaming.ReceiveAll` | marsksim/comm/http.cc:682-911 | handing over piece after piece is the fold of Recv over the pieces, stopping at an error |
| `HttpStreaming.BodyAnyCut` | marsksim/comm/http.cc:808-897 | any cut of a body that is received without error at once ends in the same state |
| `HttpStreaming.MessageAnyCut` | marsksim/comm/http.cc:682-911 | every cut of a message with a first line and header block within the limits and a well-formed body gives the same first line, fields, body and rest |
| `HttpCuts.CutExactly` | marsksim/comm/http.cc:682-911 | at any point of any stream, stopping and going on gives another outcome than running at once if and only if the cut is one of four: behind an overlong part of a readable first line, before an empty line that follows the first line at once, behind an overlong part of a header block, or before a body that only closing ends |
| `HttpCuts.CutHarmless` | marsksim/comm/http.cc:682-911 | the same for a caller: two pieces against one |
| `HttpCuts.EmptyLineLater` | marsksim/comm/http.cc:754-762 | every first line gives such a cut: an empty line in the next piece has another outcome than one in the same piece |
| `HttpCuts.HeadlessMessage` | marsksim/comm/http.cc:754-762 | an empty line in the same piece as the first line: the body begins behind it, without header fields |
| `HttpCuts.FirstLineAtOnce` | marsksim/comm/http.cc:723-772 | a readable first line of any length is accepted when it comes at once |
| `HttpCuts.FirstLineLimit` | marsksim/comm/http.cc:727-736 | it is accepted in every cut if and only if it has at most 8 KiB and one byte |
| `HttpCuts.HeadersAtOnce` | marsksim/comm/http.cc:774-806 | a header block of any length is accepted at once if and only if it does not announce a negative length |
| `HttpCuts.HeaderLimit` | marsksim/comm/http.cc:774-786 | it is accepted in every cut if and only if, besides, it has at most 128 KiB and one byte |
| `HttpMessages.WriteChunks` | marsksim/comm/http.cc:503-517 | header, data and tail of every chunk, then the end marker |
| `HttpMessages.ChunksAtOnce` | marsksim/comm/http.cc:814-868 | an encoded chunk list is decoded to the concatenated data and leaves exactly what follows it |
| `HttpMessages.ChunksAnyCut` | marsksim/comm/http.cc:503-517 | every cut of an encoded chunk list delivers exactly the concatenated data and reaches the end, section 4.1 of RFC 7230 |
| `HttpMessages.ChunksNotEarly` | marsksim/comm/http.cc:844-868 | no proper prefix of it reaches the end or an error |
| `HttpMessages.BadChunkRefused` | marsksim/comm/http.cc:834-837 | a chunk whose data is not followed by CRLF is refused |
| `HttpMessages.EmptyChunkIsEof` | marsksim/comm/http.cc:503-517 | an empty chunk is encoded as the end of the body |
| `HttpMessages.EmptyChunkStops` | marsksim/comm/http.cc:503-517 | in every cut, a stream with an empty chunk ends there: the body is the data before it, and the rest is left in the buffer |
| `HttpBuilder.ReasonRead` | marsksim/comm/http.cc:260-288 | of the reason phrase of a printed status line the receiver keeps its only word, and nothing of two words or more |
| `HttpBuilder.StatusLineRead` | marsksim/comm/http.cc:245-288 | a printed status line is read back if and only if its reason has no space |
| `HttpBuilder.NotFoundIsDropped` | marsksim/comm/http.cc:282-284 | the phrase "Not Found" is lost |
| `HttpBuilder.RequestLineRead` | marsksim/comm/http.cc:155-205 | a printed request line is read back |
| `HttpBuilder.HeadersRead` | marsksim/comm/http.cc:479-489 | printed header fields with distinct names are read back in order |
| `HttpBuilder.BlockOk` | marsksim/comm/http.cc:619-637 | the end of a printed header block is found at its end and not before |
| `HttpBuilder.Builder.HeaderToBuffer` | marsksim/comm/http.cc:619-637 | first line, fields and empty line, or nothing without fields |
| `HttpBuilder.Builder.BlockToBuffer` | marsksim/comm/http.cc:639-646 | adds the content length unless there is one, and writes nothing for an empty body |
| `HttpBuilder.Builder.StreamToBuffer` | marsksim/comm/http.cc:648-653 | adds the chunked field and writes the head and the chunks |
| `HttpBuilder.BlockMessageAnyCut` | marsksim/comm/http.cc:682-911 | a message with a content length, its field name written in any case, in any cut and with anything behind it, is received with the same first line, fields and body, section 3.3.3 of RFC 7230 |
| `HttpBuilder.BuiltBlockAnyCut` | marsksim/comm/http.cc:619-911 | the same for what the builder writes around a block body |
| `HttpBuilder.StreamMessageAnyCut` | marsksim/comm/http.cc:682-911 | the same for a chunked body, the field's name and value written in any case |
| `HttpBuilder.BuiltStreamAnyCut` | marsksim/comm/http.cc:503-911 | the same for what the builder writes around a stream body |
| `HttpBuilder.SmallPost` | marsksim/comm/http.cc:639-911 | one such message, in two pieces |
| `HttpBuilder.SmallLetters` | marsksim/comm/http.cc:400-409 | one response with "content-length", in two pieces |
| `HttpBuilder.LongUrl` | marsksim/comm/http.cc:727-736 | a request with a URL of 9000 characters is accepted at once and refused in some cut |
| `HttpBuilder.LongField` | marsksim/comm/http.cc:778-782 | a message with a header field longer than 128 KiB is accepted at once and refused in some cut |
| `HttpBuilder.CloseLosesBody` | marsksim/comm/http.cc:869-892 | a message that ends with the connection loses its body when the head fills the first piece, and keeps it otherwise |
| `HttpBuilder.CloseDelivers` | marsksim/comm/http.cc:683-688 | a message that ends with the connection, whose head comes with the first bytes of its body, is delivered in full in any further pieces and ended by the close |
| `HttpBuilder.OtherCloseIgnored` | marsksim/comm/http.cc:690-695 | without that field, or outside the body, a close changes nothing |
| `FrequencyLimit.CommFrequencyLimit.Check` | marsksim/comm/comm_frequency_limit.cc:36-61 | while the clock does not run backwards, true exactly when at most count earlier calls of the whole history were accepted within the span |
| `FrequencyLimit.CommFrequencyLimit.DelOlderTouchTime` | marsksim/comm/comm_frequency_limit.cc:63-72 | drops times out of the span and makes room, still a faithful summary |
| `FrequencyLimit.CommFrequencyLimit.AmendClock` | marsksim/comm/comm_frequency_limit.cc:38-45 | after the clock ran backwards, every kept time becomes one before now |
| `FrequencyLimit.RecentOfKept` | marsksim/comm/comm_frequency_limit.cc:47-60 | the at most count + 1 kept times answer for the whole history |
| `FrequencyLimit.CommFrequencyLimit.NoCrowdedWindow` | marsksim/comm/comm_frequency_limit.cc:36-73 | no window as long as the span holds more than count + 1 accepted calls |
| `Alarms.Alarm.Start` | marsksim/comm/alarm.cc:36-71 | succeeds exactly when the alarm is idle and its message was posted (and the system alarm accepted); it then waits under the next number with the given times; otherwise the alarm is unchanged |
| `Alarms.Alarm.Cancel` | marsksim/comm/alarm.cc:73-99 | a waiting alarm gives its number up, cancelled now; an idle one is unchanged |
| `Alarms.Alarm.OnMessage` | marsksim/comm/alarm.cc:120-167 | runs the target exactly for its own number on its own thread and not postponed, and gives the number up; otherwise nothing changes |
| `Alarms.Alarm.IsWaiting` | marsksim/comm/alarm.cc:101-103 | true exactly when the alarm holds a number, and exactly when some message can still run its target |
| `Alarms.AlwaysSafe` | marsksim/comm/alarm.cc:36-167 | in every reachable world, waiting means holding a non-zero number below the counter whose message was sent, and no two alarms hold the same |
| `Alarms.StartsAreFresh` | marsksim/comm/alarm.cc:36-71 | successful Starts get strictly increasing numbers |
| `Alarms.RunAnswersStart` | marsksim/comm/alarm.cc:120-167 | a run of the target answers an earlier Start of the same alarm, neither cancelled nor run in between |
| `Alarms.RunsAtMostOnce` | marsksim/comm/alarm.cc:120-167 | each Start runs its target at most once, under late, duplicated and stale deliveries to any alarm |
| `Alarms.CancelledNeverRuns` | marsksim/comm/alarm.cc:73-99 | a cancelled Start never runs its target |
| `Alarms.PostedStarts` | marsksim/comm/alarm.cc:36-71 | an idle alarm whose message is posted starts under the counter's number, and that message is sent |
| `Alarms.UnpostedStartsNothing` | marsksim/comm/alarm.cc:36-71 | a Start that is not posted, or on a waiting alarm, starts nothing |
| `Alarms.UncancelledCanRun` | marsksim/comm/alarm.cc:36-167 | at any later point of any run, the message of a Start that was neither cancelled nor run is under way, and delivering it runs the target |
| `Ini.VerifyName` | marsksim/comm/ini.h:34-58 | non-empty and only letters, digits, '-', '_', '.' and space |
| `Ini.INI.Create` | marsksim/comm/ini.h:82-95 | makes a new section and selects it; a known one is only selected |
| `Ini.INI.Select` | marsksim/comm/ini.h:97-111 | selects exactly a known section with a valid name |
| `Ini.INI.Set` | marsksim/comm/ini.h:118-138 | stores under valid names up to the size check, and keeps all names valid |
| `Ini.INI.Get` | marsksim/comm/ini.h:143-159 | the value or the default; a missing section is created, which saving does not see |
| `Ini.INI.Parse` | marsksim/comm/ini.h:167-252 | the loop over fgets reads, and all names stay valid |
| `Ini.CommentSkipped` | marsksim/comm/ini.h:190-191 | comments change nothing |
| `Ini.OutsideSkipped` | marsksim/comm/ini.h:222-227 | entries in front of the first section change nothing |
| `Ini.NoEntrySkipped` | marsksim/comm/ini.h:229-243 | lines without an equals sign or without a valid key change nothing |
| `Ini.SectionLines` | marsksim/comm/ini.h:198-220 | a bracket opens the section of the name behind it, whatever follows the name, and leaves the section when there is none |
| `Ini.INI.Save` | marsksim/comm/ini.h:269-295 | whatever the order of visiting, the text of a duplicate-free listing of exactly the store |
| `Ini.SavedRead` | marsksim/comm/ini.h:167-252 | parsing a saved file has exactly the effect of its lines, with what happens to a line too long for the buffer |
| `Ini.RoundTrip` | marsksim/comm/ini.h:167-322 | save then parse gives back the sections that have keys if and only if every key=value is shorter than 4096 characters |
| `Ini.SavedRoundTrip` | marsksim/comm/ini.h:167-322 | the same for the map that was saved, whatever order Save visited it in |
| `Ini.INI.Reload` | marsksim/comm/ini.h:167-322 | the same for the stores themselves |
| `Ini.OneTooMany` | marsksim/comm/ini.h:129-137 | an entry that Set accepts and that does not come back |

## Left out

- The second overload of `Recv`, `headerbuf_`, the `consumed_bytes` pointer left unset when nothing is consumed, and the read past the buffer's end while looking for the end of a trailer.
- HTTP sizes: a negative chunk size or content length, which the source does not survive, ends the model in a status `Undefined`; the casts of buffer lengths to `int` are not modelled.
- HTTP bodies that only the closing of the connection ends: `Receive` and the exact statements about cuts cover them; the statements about whole messages in any number of pieces do not, because they do depend on the cut.
- Half-updated first-line fields after a malformed first line.
- The order of `std::map`: header fields and INI sections are lists or maps, and printing is proved for every order.
- AutoBuffer: reallocation failure, `Read`, and negative offsets of `Length`.
- `SimplePack` and `SimpleUnpack`, and the noop, push and identify predicates of the long link packer: they would only add easy members.
- Zero-length packets: both unpackers accept a header that announces them; the receive loop of the model stops there.
- Md5.Context.Finish: the 64 rounds are not modelled, the block function is a parameter.
- Rationals.Rational.AddAssign: integers are unbounded, so overflow of a machine integer type is not modelled; the same holds for the other operators.
- MemPools.MemPool.Alloc: memory is a map from addresses to link words and the new block is a parameter, so real aliasing of objects is not captured.
- ChildLists.Document.InsertAfterChild: excludes the calls that UnsafeInsertFails shows to fail; the four link fields are maps over node identities, and the document check and ancestry are not modelled.
- Adler32.Combine: components above 65521 whose sums leave the range of the two subtractions, which neither adler32 nor adler32_combine returns.
- The parser's results are flushed strings; the one text buffer that parsing and flushing share is not carried through the parser, only the positions at which names are flushed.
- XML white-space collapsing is modelled for a string, not as a mode of the parser.
- XML indentation, BOM writing, numeric conversions, DOM queries and error text.
- Alarms.Alarm.Start: the wrap-around of the 64-bit sequence counter is not modelled; threads, the system alarm and the message queue are events.
- The text of INI section names of 512 characters and more, which overflow the source's buffer, and files with NUL bytes at the start of a line.
- Sockets, threads, logging, assertions, file handles, the platform bridges and the callbacks above this layer.
