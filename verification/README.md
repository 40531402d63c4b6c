# galay-http: a verified model of its protocol core

This project models the parts of galay-http where state, loops and arithmetic interact, and proves
what they promise. Code that works in place is modelled as classes and methods with the source's own
branches; each is proved against a specification, and the promises are proved about the specification.

**Huffman decoder generator** (`huffman_*.dfy`). The Python generator links a binary trie from a code
table and compiles it, breadth-first, into a machine that reads four bits at a time with one symbol
slot per entry. For every prefix-free table whose codes have at least five bits and whose EOS is thirty
ones, reading the table equals walking the trie bit by bit, and decoding undoes encoding. The hypotheses
are discharged for the 257 rows of Appendix B of RFC 7541, which are shown to be the canonical code of their lengths.

**Router** (`route_patterns.dfy`, `route_visits.dfy`, `route_trie.dfy`, `http_router.dfy`). The linked trie with its
backtracking search over one shared value list returns what a prioritised scan over the registered
patterns returns, parameters included; the last registration of a shape wins. The nodes a search enters are counted.

**HTTP/2 sending** (`outbound_scheduler.dfy`, `stream_lifecycle.dfy`, `stream_sending.dfy`,
`http2_stream.dfy`, `chunked_body.dfy`, `frame_header.dfy`). The greedy scheduler is optimal and loses
no byte; the stream machine is compared with section 5.1 of RFC 9113; the overlapping send paths are
compared with one another and the send window balances the bytes queued; what a stream queues is read back
by the receiving side as the frames it sent (`frame_octets.dfy`, `wire_round_trip.dfy`); the small-buffer body is a list.

**HTTP/2 receiving** (`frame_reader.dfy`, `ring_buffer.dfy`, `frame_dispatch.dfy`, `recv_window.dfy`).
The frames handed out depend only on the bytes received: not on the wrap of the ring, on how the network
cuts the stream, or on batch sizes. Dispatch accepts exactly the well-sequenced traces. Window updates
never stall the peer, for exactly the targets found.

**Resumable writing** (`iovec.dfy`, `http_writer.dfy`, `h2c_upgrade.dfy`, `h2c_failures.dfy`). Under any partial
writes the cursor, the writer's layouts and the h2c upgrade machine put the intended bytes on the wire once, in
order. Every failure of the upgrade has exactly its cause.

**Byte ranges** (`byte_range.dfy`, `multipart.dfy`, `multipart_reader.dfy`). Range arithmetic in wrapping 64-bit
integers, judged against the text of the header; the declared and the emitted length of a multipart response,
and its body read back as the ranges.

Bytes are numbers below 256, machine integers are written out with their wrap-around, error returns are
datatypes. Sockets, the HTTP response parser and the HTTP/2 frame parser are parameters: a run is an
arbitrary list of completions, a parser an arbitrary function of the bytes.

## What the proofs found

Where the code departs from what its documentation or the standard it implements asks, a lemma says exactly when.

- The decoder accepts more than the seven bits of padding of section 5.2 of RFC 7541: it agrees with the
  RFC on a byte string iff the string does not end in 8 to 29 ones after its last symbol
  (`HuffmanCodec.DecoderIsStrictIff`); one to three bytes of nothing but ones decode to the empty text
  (`HuffmanCodec.LongPadding`). The encoder's own output is never affected.
- The encoder skips symbols without a row instead of failing (`HuffmanCodec.DecodeOfEncoded`).
- A full-length match binds its parameters exactly iff no parameter stands opposite a request segment
  spelled `:param` (`RoutePatterns.ParamsAreTheSegments`); every parameter of every pattern can be missed
  that way (`RoutePatterns.EveryParameterCanBeMissed`).
- A search enters every trie node at most once unless the request spells `:param` or `*`
  (`RouteVisits.EveryNodeAtMostOnce`). Such a segment leads twice to one child: over k + 2 nodes a request
  can enter 2^k (`RouteVisits.ReservedRequestDoubles`).
- A multipart response declares one byte too many per range: the label `Content-Range: ` is counted as
  16 bytes and has 15 (`Multipart.LengthIsRightIff`).
- A range is what the text of its specifier asks for by section 14.1.2 of RFC 9110 iff the text is in the
  grammar with numbers that fit (or the file is empty), or is outside it and yields nothing
  (`ByteRanges.TextIsCoveredIff`). A last position of 2^64 gets nothing (`ByteRanges.HugeLastPosition`), `--1`
  and `-0` get the whole file (`ByteRanges.NegativeSuffix`, `ByteRanges.EmptySuffixIsWholeFile`).
- The scheduler never ends a stream that has nothing pending: END_STREAM is carried iff the stream asked for
  it, had bytes to send and was drained (`OutboundScheduler.EndIsCarriedIff`).
- A list of chunks ends the stream iff its last chunk fits the window the others leave; a dropped last
  chunk takes END_STREAM with it (`StreamSending.DroppedLastChunkLosesEnd`).
- The list forms of sending have the same effect as single sends except for an empty list that ends the
  stream (`Http2Streams.SendThreeWays`); header and chunks together differ from header then list only for
  one empty chunk (`StreamSending.HeaderAndChunksIsHeaderThenBatch`).
- The send family asks no can-query: frames other than resets follow END_STREAM on the wire iff an
  operation is issued with the END_STREAM flag set and with HEADERS, or DATA that fits the window, to queue
  (`StreamSending.NothingAfterEndIff`, `StreamSending.EndedTwice`).
- On traces that section 5.1 of RFC 9113 allows, the stream follows it throughout iff no HEADERS arrive
  while it is reserved by the peer (`StreamLifecycle.LegalRunFollowsRfcIff`).
- The can-queries refuse what section 5.1 lets arrive after our own reset, to be discarded, and RST_STREAM
  is sent: apart from HEADERS while reserved, a legal trace passes them iff nothing is
  received after we reset a stream that could receive
  (`StreamLifecycle.GuardedRunIsLegalIff`, `StreamLifecycle.DataAfterReset`).
- PUSH_PROMISE without END_HEADERS opens no header block for the dispatcher: a trace without
  connection error is accepted iff no such frame has a frame after it (`FrameDispatch.DispatchIsRfcIff`).
- A batch that meets the stream's error before its limit fails, and the frames before the error are consumed
  without being returned (`FrameReader.BatchTakesAll`). An oversized frame is named as such only to a closing
  reader that asks for no frame (`FrameReader.TooLargeIsNamedIff`).
- A window target can stall the peer iff it exceeds 2^31 - 1 or its wrapped triple is below 4
  (`RecvWindow.NeverStallsIff`); 1431655766, whose triple wraps to 2, is one (`RecvWindow.WrappedTargetStalls`).
- `sendHeader` does not clear a caller-owned buffer (`HttpWriters.HttpWriter.SendHeader`), and an empty
  `sendView` leaves one behind (`HttpWriters.HeaderAfterEmptyView`).
- After a failed gathered write a plain send resumes over the wrong buffer unless the message was in one
  piece (`HttpWriters.ResumePlain`); the other way round the resume fails (`HttpWriters.ResumeGathered`).
- The h2c client takes any SETTINGS frame for the server's preface: after a success the frame was a legal
  one iff its ACK flag was clear, its stream zero, its length a multiple of six of at most 16384 and its
  values in bounds (`H2cUpgrade.UpgradedOnPrefaceIff`); a run succeeds on an acknowledgement
  (`H2cUpgrade.AcknowledgementUpgrades`).

## Model

| member | source | states |
|---|---|---|
| HuffmanGenerator.BuildLinkedTrie | scripts/P1-GenHuffmanDecodeTable.py:291-305 | the linked trie built row by row is the abstract trie of the whole table |
| HuffmanGenerator.HuffmanTrie.Insert | scripts/P1-GenHuffmanDecodeTable.py:294-304 | inserting a row adds exactly the nodes on its path and marks its end, without disturbing the rest of the heap structure |
| HuffmanCode.TrieNodes | scripts/P1-GenHuffmanDecodeTable.py:291-305 | a position exists in the trie iff it begins the code of some row |
| HuffmanCode.TrieMarks | scripts/P1-GenHuffmanDecodeTable.py:301-304 | a position carries a symbol or the EOS flag iff a row ends there, and then that row's |
| HuffmanCode.BuildRepresents | scripts/P1-GenHuffmanDecodeTable.py:291-305 | for a prefix-free table every row is marked at a leaf, inner nodes carry nothing, and symbols sit at least five deep |
| HuffmanCode.AcceptingIff | scripts/P1-GenHuffmanDecodeTable.py:308-336 | decoding may stop at a node iff it is the root or lies on fewer than thirty ones |
| HuffmanGenerator.TableBuilder.IsAccepting | scripts/P1-GenHuffmanDecodeTable.py:308-336 | the loop along ones decides exactly the accepting condition of the trie |
| HuffmanCode.WalkConcat | scripts/P1-GenHuffmanDecodeTable.py:378-411 | a bit walk over two stretches is the walk over the first continued by the second, outputs appended |
| HuffmanCode.WalkStaysInside | scripts/P1-GenHuffmanDecodeTable.py:378-411 | a walk from an unmarked node never rests on a leaf or outside the trie |
| HuffmanGenerator.TableBuilder.GetState | scripts/P1-GenHuffmanDecodeTable.py:352-360 | a trie position has one state: found when known, otherwise the next number with an empty row; known states keep theirs |
| HuffmanGenerator.TableBuilder.RunFrom | scripts/P1-GenHuffmanDecodeTable.py:379-401 | the four linked steps compute the nibble's run on the abstract trie: failure, or the node reached and the slot |
| HuffmanGenerator.TableBuilder.FillRow | scripts/P1-GenHuffmanDecodeTable.py:378-414 | all sixteen entries of a state get their meaning, rows already filled keep theirs, and every state met is processed or queued |
| HuffmanGenerator.TableBuilder.Step | scripts/P1-GenHuffmanDecodeTable.py:370-414 | one turn keeps the search invariant and makes progress: a trie position leaves the to-do list or the queue shrinks |
| HuffmanGenerator.GenerateDecodeTable | scripts/P1-GenHuffmanDecodeTable.py:339-416 | terminates with a complete table: distinct positions for distinct states, every entry filled and meaning its nibble's run, accepting flags as the trie says |
| HuffmanNibbles.SlotHoldsLastSymbol | scripts/P1-GenHuffmanDecodeTable.py:383-397 | the single slot keeps the last symbol completed in a nibble, for any trie |
| HuffmanNibbles.OneSymbolPerNibble | scripts/P1-GenHuffmanDecodeTable.py:378-411 | with codes of at least five bits no five bits complete two symbols, so the slot loses nothing |
| HuffmanNibbles.TableWalkIsBitWalk | scripts/P1-GenHuffmanDecodeTable.py:493-517 | from any state, walking the table over nibbles is walking the trie over their bits: same failure, same node, same output |
| HuffmanNibbles.TableDecodeIsBitDecode | scripts/P1-GenHuffmanDecodeTable.py:493-517 | for every byte string, decoding with the generated table gives the result of decoding bit by bit |
| HuffmanCodec.Encode | scripts/P1-GenHuffmanDecodeTable.py:473-491 | the bytes emitted are the codes of the text in order, padded with ones to a whole byte |
| HuffmanCodec.Decode | scripts/P1-GenHuffmanDecodeTable.py:493-517 | the decode loop succeeds iff no entry fails and the last state accepts, and returns the symbols emitted |
| HuffmanCodec.WalkText | scripts/P1-GenHuffmanDecodeTable.py:473-517 | walking the code of a text emits its coded symbols and ends at the root; a text with EOS dies |
| HuffmanCodec.DecodeOfEncoded | scripts/P1-GenHuffmanDecodeTable.py:473-517 | what decoding makes of any encoded text: nothing if it holds EOS, otherwise the text without the symbols that have no row |
| HuffmanCodec.RoundTripIff | scripts/P1-GenHuffmanDecodeTable.py:473-517 | encode, pad, decode returns the text iff all its symbols have rows and none is EOS |
| HuffmanCodec.DecodeOfPadded | scripts/P1-GenHuffmanDecodeTable.py:493-517 | a text followed by any number n of ones decodes to the text iff n is below 30 and the text has no EOS, whatever the padding length |
| HuffmanCodec.DecoderIsStrictIff | scripts/P1-GenHuffmanDecodeTable.py:308-336 | for every byte string the decoder agrees with section 5.2 of RFC 7541 iff the string does not end in 8 to 29 ones after the last symbol |
| HuffmanCodec.LongPadding | scripts/P1-GenHuffmanDecodeTable.py:308-336 | k bytes of nothing but ones decode to the empty text for k up to three, and fail from four on |
| HuffmanRfc7541.TableIsValid | scripts/P1-GenHuffmanDecodeTable.py:21-279 | the 257 rows are prefix-free, fit their lengths, have at least five bits, and EOS is thirty ones |
| HuffmanCanonical.RowsAreCanonical | scripts/P1-GenHuffmanDecodeTable.py:21-279 | every row is the one its length and place give: the first code of its length, derived from the lengths alone, plus the number of smaller symbols of that length |
| HuffmanCanonical.CodesFollowSymbols | scripts/P1-GenHuffmanDecodeTable.py:21-279 | of two symbols with codes of one length the larger has the larger code |
| HuffmanExamples.WwwExampleCom | scripts/P1-GenHuffmanDecodeTable.py:519-525 | `www.example.com` has one encoding, the bytes f1e3 c2e5 f23a 6ba0 ab90 f4ff of Appendix C.4.1 of RFC 7541 |
| HuffmanExamples.NoCache | scripts/P1-GenHuffmanDecodeTable.py:550-566 | `no-cache` has one encoding, the bytes a8eb 1064 9cbf of Appendix C.4.2 of RFC 7541 |
| HuffmanRfc7541.RowsDoNotClash | scripts/P1-GenHuffmanDecodeTable.py:21-279 | no row's code begins another row's code |
| HuffmanRfc7541.Alphabet | scripts/P1-GenHuffmanDecodeTable.py:473-491 | a number has a row iff it is below 257 |
| HuffmanRfc7541.Run | scripts/P1-GenHuffmanDecodeTable.py:473-517 | generating the real table, encoding and decoding returns a text iff all its characters are byte values; the bytes between are the encoding |
| RoutePatterns.MatchesIff | galay-http/kernel/http/http_router.cc:502-562 | without recursion: a pattern matches iff every key allows the segment at its place, over the whole request or up to a final `**` that takes at least one segment |
| RoutePatterns.FirstDifferenceDecides | galay-http/kernel/http/http_router.cc:523-556 | where two matching patterns first differ, the key spelled like the segment wins, then `:param`, then `*`; `**` wins only as an equal last segment |
| RoutePatterns.MatchesAreComparable | galay-http/kernel/http/http_router.cc:502-562 | two patterns matching the same request are ranked one way only: literal, then parameter, then single wildcard, then greedy |
| RoutePatterns.BeforeIsTransitive | galay-http/kernel/http/http_router.cc:502-562 | the ranking of patterns for a request is transitive |
| RoutePatterns.ScanIsFirstMatch | galay-http/kernel/http/http_router.cc:502-562 | the scan finds a pattern iff one matches, and no matching pattern ranks before it |
| RoutePatterns.BuildHolds | galay-http/kernel/http/http_router.cc:458-500 | after any list of registrations each shape carries its last target and every registered shape is present |
| RoutePatterns.ScanReturnsLastTarget | galay-http/kernel/http/http_router.cc:458-500 | among equal shapes the scan returns the last one registered |
| RoutePatterns.SearchIsFirstMatch | galay-http/kernel/http/http_router.cc:502-562 | on any prefix-closed trie the backtracking search finds the first registered shape in the ranking, or nothing when none matches |
| RoutePatterns.SearchRefinesScan | galay-http/kernel/http/http_router.cc:502-562 | searching the trie of any registrations gives the handler and parameters of the prioritised scan, for every request |
| RoutePatterns.ParamsAreTheSegments | galay-http/kernel/http/http_router.cc:513-556 | a full-length match binds exactly the pattern's names to the segments at their places iff none of those segments is spelled `:param`; a greedy match binds nothing |
| RoutePatterns.BindIsExact | galay-http/kernel/http/http_router.cc:512-519 | when no parameter stands opposite the reserved key, pairing names with captured values gives a map with exactly the pattern's names, each with its own segment |
| RoutePatterns.CapturedCount | galay-http/kernel/http/http_router.cc:526-540 | as many values are captured as there are parameters iff none stands opposite the reserved key |
| RoutePatterns.EveryParameterCanBeMissed | galay-http/kernel/http/http_router.cc:526-540 | for every pattern, full-length match and parameter: with that segment spelled `:param` the pattern still matches and is not bound exactly |
| RouteTries.RouteTrie.InsertRoute | galay-http/kernel/http/http_router.cc:458-500 | inserting in place equals inserting into the trie as a value, and keeps the linked structure |
| RouteTries.RouteTrie.SearchRoute | galay-http/kernel/http/http_router.cc:502-562 | the linked search returns what the search on the trie as a value returns, and enters the number of nodes counted for it |
| RouteTries.RouteSearch.Dfs | galay-http/kernel/http/http_router.cc:509-559 | a failing branch restores the shared value list; a successful one leaves exactly the hit's parameters; either way the nodes entered grow by the count for the branch |
| RouteTries.RouteSearch.TryParam | galay-http/kernel/http/http_router.cc:533-540 | the value pushed for a parameter edge is popped again when the branch fails |
| RouteVisits.EveryNodeAtMostOnce | galay-http/kernel/http/http_router.cc:509-559 | on any trie a request that spells neither `:param` nor `*` enters at most as many nodes as there are |
| RouteVisits.ReservedRequestDoubles | galay-http/kernel/http/http_router.cc:509-559 | one pattern of k parameters and a last segment gives k + 2 nodes, and the request of k times `:param` enters at least 2^k |
| HttpRouters.SplitPath | galay-http/kernel/http/http_router.cc:443-456 | the loop yields the non-empty stretches between slashes |
| HttpRouters.SplitOfJoin | galay-http/kernel/http/http_router.cc:443-456 | splitting a path joined from segments gives the segments back |
| HttpRouters.SplitOfWord | galay-http/kernel/http/http_router.cc:443-456 | a text without slash is one segment, or none if empty |
| HttpRouters.SplitOfParts | galay-http/kernel/http/http_router.cc:443-456 | for any two texts a slash between them splits into the segments of both; doubled, leading and trailing slashes add nothing |
| HttpRouters.SplitYieldsSegments | galay-http/kernel/http/http_router.cc:443-456 | every piece is non-empty and free of slashes |
| HttpRouters.ValidatePath | galay-http/kernel/http/http_router.cc:564-663 | accepts exactly the valid paths: leading slash, allowed characters, distinct parameter names, greedy wildcard last only |
| HttpRouters.ValidPathGivesGoodRoute | galay-http/kernel/http/http_router.cc:592-634 | a valid path has distinct parameter names and a greedy wildcard only at its end, as the search theorems need |
| HttpRouters.FuzzyIff | galay-http/kernel/http/http_router.cc:436-441 | a valid path is taken for a pattern iff one of its segments is a parameter or a wildcard |
| HttpRouters.HttpRouter.AddHandler | galay-http/kernel/http/http_router.cc:337-377 | an invalid path changes nothing; a pattern is registered last; a plain path replaces its handler; the count grows for patterns and new plain paths |
| HttpRouters.HttpRouter.FindHandler | galay-http/kernel/http/http_router.cc:379-401 | a path in the exact table gets its handler and no parameters, whatever patterns match; otherwise nothing is found iff no registered pattern matches, and a hit comes from the pattern that ranks first, the last registered of its shape, with the parameter law |
| HttpRouters.HttpRouter.DelHandler | galay-http/kernel/http/http_router.cc:403-419 | removes exactly a plain path that is present; patterns stay |
| Multipart.SendMultipleRanges | galay-http/kernel/http/http_router.cc:1707-1875 | declares the summed length and emits, part by part, the multipart body of the ranges |
| Multipart.ContentLength | galay-http/kernel/http/http_router.cc:1731-1751 | the loop's wrapping sum is the declared length with 16 counted for the label |
| Multipart.SendContent | galay-http/kernel/http/http_router.cc:1824-1852 | the chunked read loop emits exactly the file's bytes of the range that exist |
| MultipartReader.ContentRangeReadsBack | galay-http/kernel/http/http_range.h:222-227 | read back, a Content-Range line gives start, end and size in their places |
| MultipartReader.BodyReadsBack | galay-http/kernel/http/http_router.cc:1779-1875 | a reader that goes by boundary lines and takes each length from the Content-Range line gets from the body, for any ranges inside the file, exactly those ranges in order, each with its bytes and type |
| MultipartReader.ParsedAnswerReadsBack | galay-http/kernel/http/http_router.cc:1707-1875 | so it does for the ranges parsed from any header |
| Multipart.FifteenIsExact | galay-http/kernel/http/http_router.cc:1731-1751 | counting 15 for the label would declare exactly the bytes emitted |
| Multipart.DeclaredExceedsSent | galay-http/kernel/http/http_router.cc:1731-1751 | as written, the declared length is the emitted one plus the number of ranges |
| Multipart.LengthIsRightIff | galay-http/kernel/http/http_router.cc:1731-1751 | for ranges fully read the declared length is right iff the number of ranges is zero in 64 bits |
| Multipart.ParsedRangesAreFullyRead | galay-http/kernel/http/http_range.h:164-213 | every range the parser returns lies inside the file, so the length law applies |
| ByteRanges.RangeCoversWanted | galay-http/kernel/http/http_range.h:291-348 | in terms of the numbers the code reads: a valid range is in bounds with its true length; it covers exactly the bytes those numbers ask for (and an invalid one means none) iff they are not the empty suffix of a non-empty file |
| ByteRanges.TextIsCoveredIff | galay-http/kernel/http/http_range.h:291-348 | for every text and size the result is exactly the bytes the text asks for, its numbers unbounded, iff it is in the grammar with numbers that fit or the file is empty, or it is outside the grammar and yields nothing |
| ByteRanges.HugeLastPosition | galay-http/kernel/http/http_range.h:300-315 | `0-18446744073709551616` asks for all of a non-empty file and gets no range |
| ByteRanges.NegativeSuffix | galay-http/kernel/http/http_range.h:331-341 | `--1` is outside the grammar and gets the whole of a non-empty file |
| ByteRanges.EmptySuffixIsWholeFile | galay-http/kernel/http/http_range.h:331-341 | `-0` asks for no byte and is read as the whole file |
| ByteRanges.EmptyFileSuffix | galay-http/kernel/http/http_range.h:291-348 | on an empty file a suffix range wraps its length to zero and nothing is valid |
| ByteRanges.LengthDoesNotWrap | galay-http/kernel/http/http_range.h:39-59 | a range inside a file is valid and its length is end - start + 1 without wrap |
| ByteRanges.SplitRanges | galay-http/kernel/http/http_range.h:259-283 | the loop splits at commas and drops white space |
| ByteRanges.SplitOfJoinTokens | galay-http/kernel/http/http_range.h:259-283 | splitting tokens joined with commas gives the tokens back |
| ByteRanges.SplitAtComma | galay-http/kernel/http/http_range.h:259-283 | for any two texts a comma between them splits into the specifiers of both |
| ByteRanges.SplitOfText | galay-http/kernel/http/http_range.h:259-283 | a text without comma is one specifier, its white space dropped, or none |
| ByteRanges.SplitIgnoresSpaces | galay-http/kernel/http/http_range.h:259-283 | white space anywhere in a header makes no difference to the specifiers split from it |
| ByteRanges.Parse | galay-http/kernel/http/http_range.h:164-213 | the header's prefix, one spec or several, and the filter on validity give the specified result |
| ByteRanges.ValidRangesAreSound | galay-http/kernel/http/http_range.h:199-209 | every range kept is in bounds with its true length |
| ByteRanges.NothingKeptIff | galay-http/kernel/http/http_range.h:199-209 | in terms of what the code reads: no range is kept iff no specifier asks for a byte of the file or is the misread empty suffix |
| ByteRanges.KeptIsAskedFor | galay-http/kernel/http/http_range.h:199-209 | when every specifier meets the condition of `TextIsCoveredIff`, the ranges kept hold a byte iff the text of some specifier asks for it |
| ByteRanges.ParseIsSound | galay-http/kernel/http/http_range.h:164-213 | for every header and size all ranges returned are in bounds with true lengths, the kind fits their number, and the header is invalid iff no specifier yields a range |
| ByteRanges.KindIff | galay-http/kernel/http/http_range.h:164-213 | only what follows `bytes=` is read; one specifier that yields a range makes a single one, several of which one does a multiple one; the boundary is set iff there are several specifiers |
| ByteRanges.RangesFollowSpecs | galay-http/kernel/http/http_range.h:199-209 | the ranges kept are those of the specifiers that yield one, in the order of the header |
| OutboundScheduler.PickSendableFrames | galay-http/kernel/http2/out_sched.cc:8-58 | sorts by weight and drains the streams in that order: frames, streams left and total as specified; nothing without window or frame size |
| OutboundScheduler.DrainStream | galay-http/kernel/http2/out_sched.cc:23-50 | the inner loop drains one stream as specified and counts its bytes |
| OutboundScheduler.SortByWeight | galay-http/kernel/http2/out_sched.cc:16-19 | leaves the streams permuted in non-increasing weight |
| OutboundScheduler.DrainOneStream | galay-http/kernel/http2/out_sched.cc:22-50 | payloads and remainder make up the data; both windows fall by the bytes sent, the smaller of demand and window; every frame but the last holds exactly maxFrame bytes, the last 1 to maxFrame, END_STREAM on it only if it empties an ending stream |
| OutboundScheduler.DrainAllStream | galay-http/kernel/http2/out_sched.cc:21-55 | conservation and frame soundness hold for every stream of a selection |
| OutboundScheduler.EndIsCarriedIff | galay-http/kernel/http2/out_sched.cc:22-50 | a stream of a selection gets END_STREAM iff it asked for it, had something pending and was drained |
| OutboundScheduler.FramesAreFew | galay-http/kernel/http2/out_sched.cc:25-30 | a stream of a selection gets its bytes over maxFrame, rounded up, frames |
| OutboundScheduler.DrainAllTotals | galay-http/kernel/http2/out_sched.cc:21-55 | the total sent is the smaller of the connection window and the summed demand |
| OutboundScheduler.DemandIgnoresOrder | galay-http/kernel/http2/out_sched.cc:16-19 | the summed demand does not depend on how the sort orders the streams |
| OutboundScheduler.SelectionIsOptimal | galay-http/kernel/http2/out_sched.cc:8-58 | whatever order equal weights end in, the selection sends as much as the windows allow |
| OutboundScheduler.HeavierStreamsComeFirst | galay-http/kernel/http2/out_sched.cc:16-55 | a stream sends only if every heavier one is drained or blocked by its own window |
| StreamLifecycle.ClosedIsAbsorbing | galay-http/kernel/http2/http2_stream.h:639-704 | no callback leaves Closed; only reserving would, and only new streams are reserved |
| StreamLifecycle.StateHasItsReason | galay-http/kernel/http2/http2_stream.h:639-704 | over every run of callbacks and reservations, a half-closed, closed or reserved state implies the END_STREAM flags, reset or reservation that account for it |
| StreamLifecycle.PushedStreamIsHalfClosed | galay-http/kernel/http2/http2_conn.h:1669-1671 | a promised stream whose headers were sent is half-closed (remote) with nothing received |
| StreamLifecycle.StateIsTheFlags | galay-http/kernel/http2/http2_stream.h:614-704 | in runs that respect the can-guards, reservations included, the state is determined by how the stream began, the two END_STREAM flags and resets |
| StreamLifecycle.NothingAfterTheEnd | galay-http/kernel/http2/http2_stream.h:614-704 | guarded runs send nothing after their END_STREAM or a reset, and receive nothing after the peer's, unless the stream was reserved by the peer |
| StreamLifecycle.PushedStreamsTakeHeadersForever | galay-http/kernel/http2/stream_mgr.h:1952-1955 | on a stream reserved by the peer any number of HEADERS stays permitted, END_STREAM or not |
| StreamLifecycle.UnguardedOpenWithEnd | galay-http/kernel/http2/http2_stream.h:639-665 | without guards a stream can be Open with END_STREAM received |
| StreamLifecycle.GuardsAreTheRfcs | galay-http/kernel/http2/http2_stream.h:614-636 | the can-queries permit HEADERS and DATA exactly where section 5.1 of RFC 9113 does, but for what arrives after the endpoint's own reset of a stream that could receive |
| StreamLifecycle.FollowsRfcIff | galay-http/kernel/http2/http2_stream.h:639-704 | where section 5.1 of RFC 9113 has a next state it is the implementation's, iff the event is not HEADERS received in reserved (remote) |
| StreamLifecycle.LegalRunFollowsRfcIff | galay-http/kernel/http2/http2_stream.h:614-704 | a trace section 5.1 allows, frames arriving after our own reset included, is followed state by state iff no HEADERS arrive while the stream is reserved by the peer |
| StreamLifecycle.GuardedRunIsLegalIff | galay-http/kernel/http2/http2_stream.h:614-704 | without that case, the traces that pass the guards and reset only what can be reset are exactly those the RFC allows in which nothing is received after our own reset of a stream that could receive |
| StreamLifecycle.DataAfterReset | galay-http/kernel/http2/stream_mgr.h:1778-1781 | DATA that arrives after we reset an open stream is legal and refused by the guards |
| StreamLifecycle.ReservedRemoteIsStuck | galay-http/kernel/http2/http2_stream.h:639-665 | until a reset a stream reserved by the peer stays reserved and unable to receive data, whatever is sent or received |
| StreamSending.HeaderAndChunksIsHeaderThenBatch | galay-http/kernel/http2/http2_stream.h:1588-1664 | header and chunks together equal header then batch iff the chunks are not one empty chunk |
| StreamSending.WindowLaw | galay-http/kernel/http2/http2_stream.h:1346-1778 | over any run of sends and adjustments the window is the initial one plus adjustments minus the data bytes queued, in range throughout |
| StreamSending.FittingGoesOutWhole | galay-http/kernel/http2/http2_stream.h:1666-1717 | chunks that fit the window together all go out, END_STREAM on the last only |
| StreamSending.AllDeliveredIff | galay-http/kernel/http2/http2_stream.h:1666-1717 | the chunks all go out iff there are none or their total fits the window |
| StreamSending.DroppedLastChunkLosesEnd | galay-http/kernel/http2/http2_stream.h:1685-1697 | a list that is to end the stream puts END_STREAM on the wire, and sets the flag, iff its last chunk fits the window that trying the others leaves |
| StreamSending.SendEachWindow | galay-http/kernel/http2/http2_stream.h:1685-1697 | the window after a list is a function of the first window and the chunk sizes alone |
| StreamSending.NothingAfterEndIff | galay-http/kernel/http2/http2_stream.h:1346-1778 | over any run of sends, receipts and resets of a new stream, only resets follow END_STREAM on the wire iff no operation is issued with the END_STREAM flag set and HEADERS, or DATA that fits, to queue; the flag says what is on the wire |
| StreamSending.WillQueueIff | galay-http/kernel/http2/http2_stream.h:1346-1778 | whether an operation changes what is sent is decided by its arguments and the window before it: the data fits, one of the chunks does, an empty list is to end the stream, or it sends headers or a reset |
| StreamSending.PermittedRunsEndOnce | galay-http/kernel/http2/http2_stream.h:614-636 | callers that ask the can-queries never put a frame after END_STREAM |
| StreamSending.EndedTwice | galay-http/kernel/http2/http2_stream.h:1346-1364 | two unasked sends put END_STREAM on the wire twice |
| Http2Streams.SegmentedIsSerialized | galay-http/kernel/http2/http2_stream.h:48-138 | a frame queued as header plus payload puts the same bytes on the wire as one queued ready-made |
| Http2Streams.Http2Stream.SendData | galay-http/kernel/http2/http2_stream.h:1346-1385 | without a queue nothing happens; otherwise data that fits is queued as one frame that reads as DATA with these bytes and flag, charged to the window, and ends the stream if asked; data that does not fit is dropped |
| Http2Streams.Http2Stream.SendDataBatch | galay-http/kernel/http2/http2_stream.h:1666-1717 | the loop queues, byte for byte, what the batch specification sends and reaches its window and state |
| Http2Streams.Http2Stream.SendDataChunks | galay-http/kernel/http2/http2_stream.h:1719-1778 | the moving form reaches the same frames, window and state as the batch form |
| Http2Streams.SendThreeWays | galay-http/kernel/http2/http2_stream.h:1346-1778 | three streams in the same situation: batch and moving form always reach the same window, state and queue bytes, and one-by-one sending does iff the list is not an empty one that ends the stream |
| Http2Streams.Http2Stream.SendEncodedHeaders | galay-http/kernel/http2/http2_stream.h:1282-1344 | queues one frame that reads as HEADERS with this block and these two flags, and takes the lifecycle step |
| Http2Streams.Http2Stream.SendEncodedHeadersAndData | galay-http/kernel/http2/http2_stream.h:1469-1526 | header, then the data if it fits, with END_STREAM where the specification puts it |
| Http2Streams.Http2Stream.SendEncodedHeadersAndDataChunks | galay-http/kernel/http2/http2_stream.h:1588-1664 | header and the chunks that fit are queued together as specified |
| Http2Streams.Http2Stream.SendRstStream | galay-http/kernel/http2/http2_stream.h:1410-1422 | queues one frame that reads as RST_STREAM with this error code and closes the stream |
| Http2Streams.Http2Stream.AdjustSendWindow | galay-http/kernel/http2/http2_stream.h:577 | the window moves by the delta in 32-bit arithmetic; nothing else changes |
| Http2Streams.Http2Stream.OnHeadersReceived | galay-http/kernel/http2/http2_stream.h:639-652 | the callback takes the lifecycle step for HEADERS received |
| Http2Streams.Http2Stream.OnDataReceived | galay-http/kernel/http2/http2_stream.h:654-665 | the callback takes the lifecycle step for DATA received |
| Http2Streams.Http2Stream.OnHeadersSent | galay-http/kernel/http2/http2_stream.h:667-682 | the callback takes the lifecycle step for HEADERS sent |
| Http2Streams.Http2Stream.OnDataSent | galay-http/kernel/http2/http2_stream.h:684-694 | the callback takes the lifecycle step for DATA sent |
| Http2Streams.Http2Stream.SetState | galay-http/kernel/http2/http2_stream.h:571 | only the state is set; with the reserved states it is the reservation event |
| Http2Streams.Http2Stream.ResetForReuse | galay-http/kernel/http2/http2_stream.h:1220-1258 | every field of the record, received contents, queues, priority and bindings included, is that of a new stream with the given identifier |
| Http2Streams.Http2Stream.constructor | galay-http/kernel/http2/http2_stream.h:1131-1140 | a new stream has the values that reuse restores |
| ChunkedBody.Http2ChunkedBody.Append | galay-http/kernel/http2/http2_stream.h:208-260 | appending adds a non-empty chunk to the list in either representation, and an empty one not at all |
| ChunkedBody.Http2ChunkedBody.View | galay-http/kernel/http2/http2_stream.h:262-270 | the view is the list and leaves it as it was |
| ChunkedBody.Http2ChunkedBody.TakeChunks | galay-http/kernel/http2/http2_stream.h:272-291 | returns the list and empties the body |
| ChunkedBody.Http2ChunkedBody.Coalesce | galay-http/kernel/http2/http2_stream.h:293-308 | returns the concatenation |
| ChunkedBody.Http2ChunkedBody.TakeCoalesced | galay-http/kernel/http2/http2_stream.h:310-325 | returns the concatenation and empties the body |
| ChunkedBody.Http2ChunkedBody.TakeSingleChunk | galay-http/kernel/http2/http2_stream.h:327-335 | returns the whole content, from one chunk or several, and empties the body |
| ChunkedBody.PerformAll | galay-http/kernel/http2/http2_stream.h:189-354 | any interleaving of the operations behaves as on a plain list of non-empty chunks, with size and count exact |
| ChunkedBody.AppendsComeOutInOrder | galay-http/kernel/http2/http2_stream.h:208-308 | after any appends the content is the old content followed by the data in order |
| FrameHeader.HeaderOnTheWire | galay-http/protoc/http2/http2_frame.cc:50-93 | reading a written header gives back 24 bits of length, 31 of stream identifier, and all of type and flags |
| FrameHeader.HeaderRoundTripIff | galay-http/protoc/http2/http2_frame.cc:50-93 | a header survives writing and reading iff its length and stream identifier fit |
| FrameHeader.DeserializePrefix | galay-http/protoc/http2/http2_frame.cc:72-93 | only the first nine bytes decide a header |
| FrameOctets.ReadsAsSentIff | galay-http/protoc/http2/http2_frame.cc:50-69 | the octets of a frame, read one by one as sections 4.1, 6.1, 6.2 and 6.4 of RFC 9113 define them, give stream, payload, END_STREAM, END_HEADERS and error code as sent, iff the error code has 32 bits |
| WireRoundTrip.SentIsReadBackIff | galay-http/kernel/http2/http2_stream.h:48-138 | a reader that takes length, type, flags, stream and error code from the octets gets from the bytes of a list of sent frames those very frames, nothing left over, iff every payload is below 2^24 and within the reader's limit and every error code below 2^32 |
| WireRoundTrip.QueueIsReadBackIff | galay-http/kernel/http2/http2_stream.h:48-138 | the same for the queue of a stream object |
| FrameReader.DecodeFrameHeader | galay-http/kernel/http2/http2_conn.h:273-299 | from the first segment or through a copy, the header is that of the bytes laid end to end; none when fewer than nine |
| FrameReader.InspectBufferedFrame | galay-http/kernel/http2/http2_conn.h:301-325 | the status depends on the buffered bytes alone: too short, too large, incomplete or complete |
| FrameReader.ParseSingleBufferedFrame | galay-http/kernel/http2/http2_conn.h:327-366 | a single read is a batch of at most one, and consumes only on success |
| FrameReader.ParseBufferedFrameBatch | galay-http/kernel/http2/http2_conn.h:368-419 | the loop over the ring equals the batch on the byte sequence, results and leftover, wherever the ring wraps |
| FrameReader.ParseBufferedFrameViewBatch | galay-http/kernel/http2/http2_conn.h:421-468 | the view loop equals the same batch with frames left unparsed |
| FrameReader.MoreBytesContinue | galay-http/kernel/http2/http2_conn.h:301-419 | bytes that arrive later only continue the frames already found; an error stays |
| FrameReader.BatchIsAPiece | galay-http/kernel/http2/http2_conn.h:368-419 | a batch takes the next frames of the stream and fails only with the stream's own error |
| FrameReader.BatchTakesAll | galay-http/kernel/http2/http2_conn.h:368-419 | a batch returns as many frames as are there up to its limit, and fails iff the stream's error comes before the limit |
| FrameReader.StreamStopsIff | galay-http/kernel/http2/http2_conn.h:301-325 | read off the octets left: no error within a header or frame, FRAME_SIZE_ERROR iff the next frame announces more than the limit, the parser's own error at a whole frame |
| FrameReader.ScheduleDoesNotMatter | galay-http/kernel/http2/http2_conn.h:301-468 | for any deliveries and batch sizes, frames handed out followed by those still buffered are the frames of the whole stream, same leftover; a failure is the stream's own, and what was handed out before begins the stream's frames |
| FrameReader.ErrorFreeStreamsAreComplete | galay-http/kernel/http2/http2_conn.h:301-468 | on an error-free stream no schedule fails and draining completes the frame sequence |
| FrameReader.ViewsCoverTheInput | galay-http/kernel/http2/http2_conn.h:421-468 | views laid end to end with the leftover are the input, each a whole frame within the limit |
| FrameReader.ViewsAndFramesAgree | galay-http/kernel/http2/http2_conn.h:368-468 | parsing a view batch frame by frame gives the frame batch with the same leftover |
| FrameReader.FullBufferCanBeStuckIff | galay-http/kernel/http2/http2_conn.h:507-517 | a full buffer can hold an unfinished frame iff the largest frame does not fit the buffer |
| FrameReader.FullCanBeReportedIff | galay-http/kernel/http2/http2_conn.h:688-705 | a batch reader can report a full buffer iff nine bytes plus the frame limit exceed the capacity |
| FrameReader.TurnIff | galay-http/kernel/http2/http2_conn.h:688-705 | what a turn of a reader that asks for frames does, by the stream in its buffer: the frames or the error, otherwise the end when closing, all the free room, or a full buffer |
| FrameReader.TooLargeIsNamedIff | galay-http/kernel/http2/http2_conn.h:489-505 | a turn names an oversized frame iff the reader asks for no frame, is closing and the next frame announces more than the limit |
| FrameReader.FrameBatchReader.Advance | galay-http/kernel/http2/http2_conn.h:688-705 | a turn parses, then ends when closing, then offers the free room or reports a full buffer |
| FrameReader.FrameBatchReader.OnRead | galay-http/kernel/http2/http2_conn.h:707-718 | received bytes join the buffer; none means the peer closed |
| FrameReader.FrameBatchReader.OnReadFailed | galay-http/kernel/http2/http2_conn.h:540-546 | a read failure ends the reader with a protocol error; a disconnection also marks the peer as closed |
| FrameDispatch.DispatcherState.Dispatch | galay-http/kernel/http2/frame_disp.cc:6-73 | an allowed frame updates the expectation; any other is refused with GOAWAY and leaves the state alone |
| FrameDispatch.TraceAcceptedIff | galay-http/kernel/http2/frame_disp.cc:6-73 | a trace is accepted iff every open header block is followed at once by CONTINUATION on its stream, no other CONTINUATION occurs, and no connection window update is zero |
| FrameDispatch.StateAfterTrace | galay-http/kernel/http2/frame_disp.cc:24-56 | after an accepted trace the expectation is decided by the last frame and GOAWAY by any frame |
| FrameDispatch.DispatchIsRfcIff | galay-http/kernel/http2/frame_disp.cc:6-73 | a trace without connection error by sections 6.9 and 6.10 of RFC 9113 is accepted, and an accepted trace is without one, iff no PUSH_PROMISE without END_HEADERS has a frame after it |
| FrameDispatch.PushPromiseContinuationIsRefused | galay-http/kernel/http2/frame_disp.cc:36-46 | the CONTINUATION that completes a PUSH_PROMISE block is legal and refused |
| RecvWindow.TargetsFallBack | galay-http/kernel/http2/http2_conn.h:1209-1235 | a target is the first of configured target, initial window and 65535 that is not zero; a stream's skips the first |
| RecvWindow.WatermarkIff | galay-http/kernel/http2/http2_conn.h:1225-1226 | the watermark is three quarters of the target iff tripling does not wrap |
| RecvWindow.ReplenishKeepsBand | galay-http/kernel/http2/http2_conn.h:1224-1234 | one update leaves the window between the watermark and the larger of target and window, with an increment of at most 2^31 - 1 |
| RecvWindow.RunKeepsBand | galay-http/kernel/http2/http2_conn.h:1209-1235 | so does every run of a peer that stays within its window |
| RecvWindow.AllWindowsKeepTheirBands | galay-http/kernel/http2/stream_mgr.h:1655-1665 | in one run over the connection and any streams, the connection and each stream that took part stay in the band of their own configured target; other streams keep their window |
| RecvWindow.NeverStallsIff | galay-http/kernel/http2/http2_conn.h:1209-1235 | no run leaves the peer without window iff the target is at most 2^31 - 1 and its wrapped triple is at least 4 |
| RecvWindow.WrappedTargetStalls | galay-http/kernel/http2/http2_conn.h:1225-1226 | the first target that wraps has watermark 0 and stalls |
| IoVec.CompactIovecs | galay-http/kernel/iov_utils.h:118-132 | in place, the non-empty segments come first in order; their number is returned |
| IoVec.FirstNonEmpty | galay-http/kernel/iov_utils.h:228-239 | the first non-empty segment, which begins the bytes; none when all are empty |
| IoVec.CopyPrefix | galay-http/kernel/iov_utils.h:321-341 | copies the bytes from the front across segments, as many as asked for and available, and leaves the rest of the destination |
| IoVec.NonEmptiesFlatten | galay-http/kernel/iov_utils.h:118-132 | dropping empty segments keeps the bytes |
| IoVec.IoVecCursor.Normalize | galay-http/kernel/iov_utils.h:476-494 | compacts in place and recounts: remaining equals the pending bytes |
| IoVec.IoVecCursor.Append | galay-http/kernel/iov_utils.h:421-431 | the pending bytes grow by the segment at their end |
| IoVec.IoVecCursor.Advance | galay-http/kernel/iov_utils.h:433-465 | exactly the written bytes leave the front, across and inside segments, at most what is pending; the remaining count stays exact |
| HttpWriters.HttpWriter.PrepareTcpSendLayout | galay-http/kernel/http/http_writer.h:506-531 | one segment when the message is within the threshold, otherwise header and body apart; either way the message |
| HttpWriters.HttpWriter.StartTcp | galay-http/kernel/http/http_writer.h:279-295 | a new message is header followed by body; while one is unfinished nothing changes |
| HttpWriters.HttpWriter.StartSsl | galay-http/kernel/http/http_writer.h:533-543 | the same message as one buffer |
| HttpWriters.HttpWriter.SendHeader | galay-http/kernel/http/http_writer.h:351-373 | the header is what gets offered iff no caller-owned buffer is set, or it ends with the header |
| HttpWriters.HeaderAfterEmptyView | galay-http/kernel/http/http_writer.h:351-424 | after an empty view has completed, a non-empty header is not what gets offered: the offer would start before the view |
| HttpWriters.HttpWriter.SendView | galay-http/kernel/http/http_writer.h:413-424 | the caller's bytes are offered in place |
| HttpWriters.HttpWriter.UpdateRemaining | galay-http/kernel/http/http_writer.h:442-452 | the unsent bytes lose the sent prefix; finishing clears all buffers |
| HttpWriters.HttpWriter.UpdateRemainingWritev | galay-http/kernel/http/http_writer.h:454-465 | the same through the cursor, whose pending count stays equal to the remaining count |
| HttpWriters.TcpWriteMachine.Advance | galay-http/kernel/http/http_writer.h:93-118 | offers exactly the unsent bytes, never an empty offer, or reports the outcome; a gathered write without segments fails |
| HttpWriters.TcpWriteMachine.OnWrite | galay-http/kernel/http/http_writer.h:120-145 | a partial write drops its bytes; success exactly when none are left; an error keeps them |
| HttpWriters.TransmitTcp | galay-http/kernel/http/http_writer.h:86-158 | for any run of partial writes and failures, bytes on the wire followed by unsent ones are the message, and success means all of it |
| HttpWriters.ResumePlain | galay-http/kernel/http/http_writer.h:86-118 | after a failed gathered write the next plain send continues the message iff it was coalesced, had no body, or the header ends with what was left |
| HttpWriters.ResumeGathered | galay-http/kernel/http/http_writer.h:105-112 | after a failed plain write a gathered send fails for want of segments and leaves the message as it was |
| HttpWriters.SslSendMachine.OnSend | galay-http/kernel/http/http_writer.h:192-210 | a partial send drops its bytes; an error or a send of nothing fails and drops the rest |
| HttpWriters.TransmitSsl | galay-http/kernel/http/http_writer.h:166-214 | for any run the wire holds a prefix of the message, all of it on success |
| HttpWriters.SendMessage | galay-http/kernel/http/http_writer.h:279-343 | coalesced, gathered and TLS layouts put the same bytes on the wire |
| H2cUpgrade.H2cUpgradeMachine.Advance | galay-http/kernel/http2/h2c_client.h:161-213 | the phase loop ends and runs the machine to its next wait or result, as specified |
| H2cUpgrade.H2cUpgradeMachine.ParseUpgradeResponse | galay-http/kernel/http2/h2c_client.h:371-412 | feeds the buffer to the parser, consumes what it took, and judges a complete answer |
| H2cUpgrade.H2cUpgradeMachine.TryConsumeSettingsFrame | galay-http/kernel/http2/h2c_client.h:414-449 | waits for a whole frame, consumes it if it is SETTINGS, otherwise fails without consuming |
| H2cUpgrade.H2cUpgradeMachine.OnRead | galay-http/kernel/http2/h2c_client.h:215-231 | received bytes join the buffer; none is a failure named by the phase |
| H2cUpgrade.H2cUpgradeMachine.OnWrite | galay-http/kernel/http2/h2c_client.h:233-250 | the offset grows by the bytes written; a write of nothing or beyond the payload fails |
| H2cUpgrade.RunIsSound | galay-http/kernel/http2/h2c_client.h:161-250 | over every run, bytes written match the phase and offset, and bytes received are answer, SETTINGS frame and buffer in that order |
| H2cUpgrade.WrittenInOrder | galay-http/kernel/http2/h2c_client.h:161-213 | at every moment the bytes written are a prefix of request, preface and acknowledgement; the preface only after an accepted 101, the acknowledgement only after SETTINGS |
| H2cUpgrade.SuccessIff | galay-http/kernel/http2/h2c_client.h:202-207 | success iff everything is written without failure; then a 101 for h2c and after it a SETTINGS frame were taken from what was received |
| H2cFailures.RunIsExplained | galay-http/kernel/http2/h2c_client.h:161-449 | over every run: an answer that is malformed or complete and not a 101 for h2c ends the upgrade with its own failure, an accepted one never; a whole frame that is not SETTINGS does, and none waits; a full buffer and a missing connection fail exactly when they occur |
| H2cFailures.RefusedIff | galay-http/kernel/http2/h2c_client.h:371-412 | the upgrade ends with parse error, expected 101, missing or invalid Upgrade iff that is the verdict on the last call of the parser |
| H2cFailures.WaitsForMore | galay-http/kernel/http2/h2c_client.h:371-449 | while an upgrade waits, no whole frame is buffered, the parser has been given every byte it did not consume, and there is room |
| H2cFailures.CompletionFailures | galay-http/kernel/http2/h2c_client.h:215-250 | a completion fails an upgrade with send failure, receive failure, disconnection or closed peer iff it is of that kind |
| H2cUpgrade.AnySettingsFrameIsTaken | galay-http/kernel/http2/h2c_client.h:414-449 | a SETTINGS frame with any flags, stream and payload is taken whole, leaving the bytes after it |
| H2cUpgrade.UpgradedOnPrefaceIff | galay-http/kernel/http2/h2c_client.h:435-445 | after a success the frame taken is a server preface of section 3.4 of RFC 9113 iff ACK is clear, the stream is zero, the length is a multiple of six of at most 16384 and the settings are within the bounds of section 6.5.2 |
| H2cUpgrade.AcknowledgementUpgrades | galay-http/kernel/http2/h2c_client.h:161-274 | a run in which the server's first frame is an acknowledgement ends in success |
| H2cUpgrade.OfferIsNext | galay-http/kernel/http2/h2c_client.h:262-275 | every offer is all that is left of the part being sent, every wait for input offers all the free room, and the incomplete outcome never occurs |
| H2cUpgrade.WritesJoin | galay-http/kernel/http2/h2c_client.h:233-250 | two partial writes leave the machine as one write of both |
| H2cUpgrade.AnswersProgress | galay-http/kernel/http2/h2c_client.h:161-250 | a completion that does not fail moves bytes: more written or more received |
| H2cUpgrade.Serve | galay-http/kernel/http2/h2c_client.h:161-250 | the machine object driven by any completions follows the run on values |

## Left out

- Sockets, coroutines, timeouts, TLS and logging: completions are arbitrary inputs of a run.
- HTTP/1 parsing, HPACK, the frame parser and SETTINGS serialisation: arbitrary functions or given bytes. Reading a response or a frame is taken to depend on the bytes and not on their segments.
- The ring buffer's internals: a bounded byte sequence cut anywhere into at most two segments. Empty segments are allowed; the cut chosen for the free room stands for its lengths only.
- Memory validity of borrowed segments and frame views: an iovec is modelled as its bytes.
- The outer map from HTTP method to routes: one method is modelled, and handlers are numbers.
- The locale of character classification in path and range validation: plain ASCII.
- The pool and waiters of streams, and what a retire callback does; `sendFrameBatchInternal`, padding, and building header blocks: the send family starts from an encoded block.
- `sendChunk` and the fast-path counters of the writer: the same accounting over another buffer.
- `buildWindow` and `bindFirstNonEmpty`: compaction and first-segment selection again.
- A custom flow-control strategy, and the rest of the stream manager: runs apply the increments as it does, as signed 32-bit deltas.
- The `closing` flag of the batch reader is an input of each turn; the single-frame and view readers, which run the same turn over another parse, are not repeated.
- The read loop of a range sees a file of fixed content whose reads may be short but never fail; `lseek`, `open` and I/O errors are not modelled.
- HttpWriters.HttpWriter.SendHeader: an empty view with a null address counts as no view in the code; the model's empty view has an address.
- H2cUpgrade.SuccessIff: asks that the acknowledgement is not empty, which every SETTINGS acknowledgement of nine bytes meets.
- FrameReader.TurnIff: speaks of readers that ask for at least one frame, as the next one.
- MultipartReader.BodyReadsBack: boundary and type hold no carriage return, which a generated boundary and the table of types never do.
- FrameReader.FullCanBeReportedIff: speaks of readers that ask for at least one frame; one that asks for none waits or reports a full buffer whatever is buffered.
- RoutePatterns.SearchRefinesScan: speaks of greedy wildcards at the end of patterns only, which path validation ensures (`HttpRouters.ValidPathGivesGoodRoute`).
- StreamSending.WindowLaw: chunks are smaller than 2^31 bytes and adjustments keep the window in 32 bits; beyond that the code's arithmetic wraps.
- Static files, proxying, WebSocket, builders, configuration, timers and benchmarks: one-branch setters or plumbing.
- StreamLifecycle.ClosedIsAbsorbing: reservations are excluded, which the code makes on new streams only.
- HttpWriters.ResumePlain: starts from a writer without a caller-owned buffer; with one, that buffer is what a plain send offers.
