# Verified model of TreeFrog's WebSocket reader and of the JavaScript engines in its defaults

A Dafny model of three pieces of the repository, with proofs about them.

**The WebSocket frame reader** (`src/tabstractwebsocket.cpp`, with the delivery of messages in
`src/tepollwebsocket.cpp` and `src/twebsocket.cpp`).  The wire format of RFC 6455, sections 5.2 to 5.5, is a pair of
functions; the reader is a function from a state and some bytes to a state and the bytes left over.  The class
`Socket` updates a frame queue and a receive buffer in place and is proved against that function.  The main results
are that chunking does not matter, that the queue invariant always holds, exactly which streams arrive whole, and, for
whole runs of arrivals and collections, exactly which runs hand over the messages that were sent.

**The JSX compiler bundle** (`defaults/JSXTransformer.js`): the source-map pipeline from a tree of snippets through
mappings, their text and the search back to an original position, and from code and a map back to a tree; the
operator-precedence parser; the destructuring compiler; the path normaliser.

**The React runtime** (`defaults/react-with-addons.js`, a file of a few very long lines, where line 12 holds module 7, line
13 module 31, line 14 module 59, line 15 the methods of module 80, and line 16 modules 121, 124 and 150): keyed child
reconciliation, transactions, the checksum, common ancestors and the paths of events.

Each method with a loop or with fields is proved against a function or a predicate, and what the code promises is then
proved about these.  Where a method and its specification share a definition, a lemma states what it is in other terms:
octets and bits, the alphabet, the order, or laws for one item more.  `Options.dfy` and `Bytes.dfy` hold what several
modules share.

## Where the code differs from its documentation

- `src/tabstractwebsocket.cpp:329` says that a control frame moves behind the control frames before it.  The iterator at
  lines 333-341 has already passed the first data frame when it inserts, so the frame lands behind that one.  The model
  does what the code does.  Because the continuation check at line 321 looks at the last frame of the queue, a control
  frame that comes between the first two fragments of a message makes the code drop the second fragment
  (`PingInsideFirstMessageLosesFragment`); `ArrivesWholeExactlyIfWellFragmented` gives the exact condition.
- For the same reason a control frame that is filed while the first data frame of the queue is an unfinished one lands
  right behind it, and since a message ends at the first final frame whatever stands before it
  (`src/tepollwebsocket.cpp:103-113`), the payload of the control frame is handed over as the end of that message
  (`PingIsDeliveredInsideMessage`).  `DeliveredAsSentExactlyIfUndisturbed` says that in every run of a legal stream this is
  the only way in which messages are delivered wrongly.  Where the message is still open does not decide: a ping behind a
  whole fragmented message that has not been collected does harm (`PingBehindMessageDoesHarm`), one inside a later message
  of the queue does not (`PingInsideLaterMessageIsHarmless`).
- A frame of 2 GiB or more is cleared and only its header skipped, so its payload is then read as headers
  (`src/tabstractwebsocket.cpp:252-264`, `OversizedHeaderIsSkipped`).  The model does that too; the results about whole
  streams are for shorter payloads, the only ones the code keeps.
- `defaults/JSXTransformer.js:11403-11404` says that the lines behind the last mapping are added without a mapping.  The code
  gives all the remaining text to the last mapping, and so does the model.
- `substr` cuts a line at its end at the latest (`defaults/JSXTransformer.js:11349-11388`), so a mapping with a column behind
  the end of its line takes the line break with it, and the tree then disagrees with the map there (`ColumnBehindLine`).
  Nothing but line breaks can be misattributed, and `OriginsAreKeptExactlyIf` says exactly when none is.
- `defaults/JSXTransformer.js:6154` sets `state.allowIn`, and the early return at line 6163 leaves it set.  The contract of
  `ParseBinaryExpression` says exactly when the flag is restored, and `LoneOperandSetsFlag` gives an input where it is not.
- An initialiser that returns the sentinel `OBSERVED_ERROR` itself is taken for one that threw: those behind it are called
  again, and its close handler is not called (`SentinelIsTakenForError`).  `CallsAreMadeExactlyIfHonest` gives the exact
  condition.
- An object rest beside a literal key joins a missing name into the code, which is then no valid program, and an empty
  pattern leaves a blank component.  `DeclarationMeaning` says exactly which patterns compile to valid code.

## Model

| member | source | states |
|---|---|---|
| WebSocketFrame.MaskTwice | src/tabstractwebsocket.cpp:280-292 | unmasking undoes masking, for every key and every payload offset |
| WebSocketFrame.MaskSplit | src/tabstractwebsocket.cpp:280-292 | a payload unmasked in two pieces, the second resuming at its offset, is unmasked as a whole |
| WebSocketFrame.MaskZero | src/tabstractwebsocket.cpp:280 | the zero key leaves a payload as it is, which is why it may be skipped |
| WebSocketFrame.OctetIsUnmasked | src/tabstractwebsocket.cpp:280-292 | each bit of an unmasked octet is the exclusive or of that bit of the octet and of the octet of the key that its place selects, the key written out as quotients |
| Bytes.XorIsBitwise | src/tabstractwebsocket.cpp:289-291 | the exclusive or of two octets, bit by bit |
| WebSocketFrame.FirstOctetIs | src/twebsocketframe.h:34-40 | final bit, reserved bits and opcode of the first octet |
| WebSocketFrame.AcceptableExactly | src/twebsocketframe.cpp:147-178 | which first octets and lengths are accepted, listed |
| WebSocketFrame.ShortHeader | src/tabstractwebsocket.cpp:193-264 | headers with a 7-bit length, octet by octet |
| WebSocketFrame.MediumHeader | src/tabstractwebsocket.cpp:209-219 | headers with a 16-bit length, octet by octet |
| WebSocketFrame.LongHeader | src/tabstractwebsocket.cpp:220-231 | headers with a 64-bit length, octet by octet |
| WebSocketFrame.IncompleteExactly | src/tabstractwebsocket.cpp:193-245 | when more octets of a header have to arrive |
| WebSocketFrame.DecodeEncodedHeader | src/tabstractwebsocket.cpp:193-264 | every header of RFC 6455 section 5.2 in its minimal length form is decoded to its fields and its size, whatever follows it |
| WebSocketFrame.AcceptedHeaderIsMinimal | src/tabstractwebsocket.cpp:209-237 | only minimal length forms are accepted: an accepted header is the encoding of what was read |
| WebSocketFrame.DecodeHeaderPrefix | src/tabstractwebsocket.cpp:193 | later bytes do not change the decoding of a header |
| WebSocketReader.LeftOverIsIncompleteHeader | src/tabstractwebsocket.cpp:190-213 | without a protocol error the bytes left over are a suffix of at most 13 bytes, an incomplete header |
| WebSocketReader.DecodeAppend | src/tabstractwebsocket.cpp:190-353 | decoding a stream is decoding a front part of it and then going on with the rest |
| WebSocketReader.FeedAppend | src/tabstractwebsocket.cpp:167-359 | one call on a whole stream equals two calls on its parts, the left-over bytes being kept between them |
| WebSocketReader.ChunkingDoesNotMatter | src/tabstractwebsocket.cpp:167-359 | any way of cutting a byte stream into chunks gives the same queue, frame under construction, fault and left-over bytes |
| WebSocketReader.OversizedHeaderIsSkipped | src/tabstractwebsocket.cpp:252-264 | of a frame of 2 GiB or more only the header is skipped; what follows is read as the next header |
| WebSocketReader.OpensExactly | src/tabstractwebsocket.cpp:252-264 | a header completes an empty frame, opens one of up to 0x7FFFFFFF octets, or is skipped |
| WebSocketReader.LongFormOfShortLength | src/tabstractwebsocket.cpp:209-219 | a length below 126 in the 16-bit form is a protocol error, and nothing is filed |
| WebSocketReader.InsertedAt | src/tabstractwebsocket.cpp:330-343 | a control frame goes behind the control frames in front and one data frame |
| WebSocketReader.InsertControlKeeps | src/tabstractwebsocket.cpp:330-343 | moving a control frame forward keeps the multiset of frames and the order of the data frames |
| WebSocketReader.CommitKeeps | src/tabstractwebsocket.cpp:311-343 | a completed frame is dropped, or filed exactly once, a data frame behind all others |
| WebSocketReader.CommitKeepsQueueOk | src/tabstractwebsocket.cpp:311-343 | filing keeps the queue invariant: filed frames are complete and valid, and every continuation among the data frames, except possibly the first, follows a frame that is not final |
| WebSocketReader.FeedKeepsQueueOk | src/tabstractwebsocket.cpp:167-359 | every reachable queue satisfies that invariant, after a protocol error too |
| WebSocketSocket.MoveForward | src/tabstractwebsocket.cpp:332-341 | the iterator loop inserts behind the first data frame, or at the end |
| WebSocketSocket.Socket.ReadHeader | src/tabstractwebsocket.cpp:192-265 | reading a header into the last frame is the header decoding, with its short, faulty, empty and oversized cases |
| WebSocketSocket.Socket.ReadPayload | src/tabstractwebsocket.cpp:267-303 | reading payload takes what is missing and available, never nothing, and unmasks it from its offset on |
| WebSocketSocket.Unmask | src/tabstractwebsocket.cpp:289-291 | the in-place loop applies the mask at the given offset |
| WebSocketSocket.Socket.FileLast | src/tabstractwebsocket.cpp:311-343 | validation, the continuation check and the forward move of the last frame |
| WebSocketSocket.Socket.Round | src/tabstractwebsocket.cpp:190-353 | each round consumes input or ends the loop, and never meets a completed last frame |
| WebSocketSocket.Socket.Parse | src/tabstractwebsocket.cpp:167-359 | the whole method: queue, buffer and return value are those of feeding the buffer; bytes consumed and bytes left make up the buffer |
| WebSocketSocket.Socket.SeekRecvBuffer | src/tepollwebsocket.cpp:128-146 | a chunk that arrives is fed behind the bytes still in the buffer; a protocol error gives false and leaves the buffer as it was filled |
| WebSocketSocket.Socket.CanReadRequest | src/tepollwebsocket.cpp:41-49 | tells exactly whether a completed final frame is queued |
| WebSocketSocket.Socket.ReadAllBinaryRequest | src/tepollwebsocket.cpp:97-117 | takes all complete messages off the queue and leaves the rest |
| WebSocketSocket.Socket.ReadRequest | src/twebsocket.cpp:92-137 | what has arrived is fed and then every complete message taken; a protocol error delivers none |
| WebSocketDelivery.DrainKeepsFrames | src/tepollwebsocket.cpp:97-117 | the frames handed over and those that stay make up the queue, in order |
| WebSocketDelivery.DrainLeavesNoMessage | src/tepollwebsocket.cpp:97-117 | no frame that ends a message stays behind |
| WebSocketStream.DecodeEncodedStream | src/tabstractwebsocket.cpp:190-353 | a stream of well-formed frames is decoded to exactly these frames with unmasked payloads |
| WebSocketStream.MaskedFrameIsUnmasked | src/tabstractwebsocket.cpp:190-303 | a masked frame given as octets arrives with each bit of its payload unmasked by the octets of the key in turn |
| WebSocketStream.ArrivesWholeExactlyIfWellFragmented | src/tabstractwebsocket.cpp:311-343 | a stream is filed without loss exactly if every continuation comes where the code admits one; then the data frames are in arrival order |
| WebSocketStream.UnfragmentedArrivesWhole | src/tabstractwebsocket.cpp:167-359 | for unfragmented frames, in any chunks: data frames in order with exact payloads, each control frame exactly once |
| WebSocketStream.PingInsideFirstMessageLosesFragment | src/tabstractwebsocket.cpp:318-343 | a control frame between the first two fragments of a message makes the code drop the second one |
| WebSocketSession.EveryRunKeepsUnfragmentedStream | src/twebsocket.cpp:92-137 | for every interleaving of arriving chunks and collecting messages, the frames collected or queued are those of the unfragmented stream, data frames in order |
| WebSocketSession.FinalFramesAreCollectedSingly | src/tepollwebsocket.cpp:97-117 | one drain of a queue of final frames takes each as a message of its own |
| WebSocketDelivered.UnfragmentedIsDeliveredSingly | src/tepollwebsocket.cpp:97-146 | in every run of an unfragmented stream, control frames among it, each frame is delivered as a message of its own, data messages in order, and nothing is left over |
| WebSocketDelivered.FragmentedMessagesAreDelivered | src/tepollwebsocket.cpp:97-146 | in every run of fragmented messages without control frames, exactly these messages are delivered, in order, each with the opcode of its first frame and the payloads of all its frames |
| WebSocketDelivered.DeliveredAsSentExactlyIfUndisturbed | src/tabstractwebsocket.cpp:311-343 | in every run of a legally fragmented stream, the messages delivered are those sent exactly if no control frame was filed while the first data frame of the queue was an unfinished one |
| WebSocketDelivered.DeliveredAtOnceExactlyIfInPlace | src/tabstractwebsocket.cpp:311-343 | if the stream arrives before anything is collected, that is so exactly if every control frame comes before all data frames or the first data frame is final |
| WebSocketDelivered.PingIsDeliveredInsideMessage | src/tepollwebsocket.cpp:103-113 | a stream in which the payload of a ping is handed over as the end of a text message |
| WebSocketDelivered.PingBehindMessageDoesHarm | src/tabstractwebsocket.cpp:330-343 | a stream with a ping behind a whole message that is delivered wrongly |
| WebSocketDelivered.PingInsideLaterMessageIsHarmless | src/tabstractwebsocket.cpp:330-343 | a stream with a ping inside a message that is delivered as it was sent |
| WebSocketMixtures.RunSpoiled | src/tabstractwebsocket.cpp:330-343 | once a control frame stands among the frames of a message, no later event of a run repairs that |
| WebSocketServing.Serve | src/tepollwebsocket.cpp:97-146 | the methods of the socket, called for any sequence of events, deliver the payloads and reach the state that the run says |
| WebSocketServing.ServeFragmented | src/tepollwebsocket.cpp:97-146 | a new connection hands over every fragmented message once, whole and in order |
| DomUpdates.ProcessUpdates | defaults/react-with-addons.js:12 | the loop over the updates of a script, each placing or removing a node, fails when a node referred to is missing |
| DomUpdates.PlacedBehindFront | defaults/react-with-addons.js:12 | inserting or moving a node behind the last node of a front part puts it there and moves nothing else |
| ChildScript.PlanRuns | defaults/react-with-addons.js:15 | running the placements emitted leaves the new children in front, in order, and behind them only former children that are not kept |
| ChildScript.OneChildMore | defaults/react-with-addons.js:15 | the update emitted for one more child, with its indexes and the node in front: an insertion, or a move exactly if some child before it had a later place |
| ChildScript.RemovalsKeepOthers | defaults/react-with-addons.js:15 | removing nodes one after the other leaves the others in order |
| ChildScript.ScriptBuildsNewChildren | defaults/react-with-addons.js:15 | the emitted script, run in order, turns any former child list into exactly the new one, though a kept child is moved only below the running maximum of the former places |
| MultiChild.MultiChild.UpdateChildren | defaults/react-with-addons.js:15 | the whole update of a mutable component: new keys, new elements, numbered children; the child under a former key is the former instance exactly if both elements are empty, both text, or components of equal type and key, and is new with a new node otherwise; the node list shows the children in order |
| MultiChild.ChooseInstances | defaults/react-with-addons.js:13 | keeps, replaces or creates an instance for each wanted element and lists the former ones replaced |
| MultiChild.ChosenAreSeparate | defaults/react-with-addons.js:13 | the children chosen are distinct and have distinct nodes |
| MultiChild.RemovedAre | defaults/react-with-addons.js:13 | exactly the former children that do not stay are removed, each once |
| MultiChild.EmitPlacements | defaults/react-with-addons.js:15 | the loop with its running maximum, next index and last node emits the planned script and numbers the children |
| MultiChild.EmitRemovals | defaults/react-with-addons.js:15 | a removal with its former place and its node is emitted for each former child that goes |
| MultiChild.ScriptShowsChildren | defaults/react-with-addons.js:15 | for instances on the heap, the script emitted leaves the nodes of the children in order |
| Base64Vlq.Encode | defaults/JSXTransformer.js:10245-10263 | the loop writes the five-bit digits of the signed word |
| Base64Vlq.Decode | defaults/JSXTransformer.js:10269-10291 | the loop reads digits up to one without continuation bit, with the errors for missing and foreign characters |
| Base64Vlq.DecodeEncoded | defaults/JSXTransformer.js:10222-10291 | for every integer, decoding an encoded number leaves any following text alone and gives the number modulo 2^31 |
| Base64Vlq.DecodeUndoesEncode | defaults/JSXTransformer.js:10222-10291 | decoding undoes encoding exactly for magnitudes below 2^30 |
| Base64Vlq.DigitIsReadBack | defaults/JSXTransformer.js:10309-10335 | each of the 64 digits is read back |
| Base64Vlq.Alphabet | defaults/JSXTransformer.js:10309-10335 | the alphabet, written out |
| Base64Vlq.SignsAreLowest | defaults/JSXTransformer.js:10198-10235 | the sign of an encoded number is its lowest bit |
| Base64Vlq.DigitsAre | defaults/JSXTransformer.js:10245-10263 | digits are written lowest five bits first, all but the last with the continuation bit |
| Base64Vlq.NoDigit | defaults/JSXTransformer.js:10269-10291 | the faults at the end of the text and at a foreign character |
| ArraySets.ArraySet.Add | defaults/JSXTransformer.js:10091-10100 | a string is appended unless it is a duplicate that is not wanted; the index keeps the first places |
| ArraySets.ArraySet.IndexOfInverts | defaults/JSXTransformer.js:10117-10134 | the index and the element access undo each other |
| ArraySets.AddedOnce | defaults/JSXTransformer.js:10091-10100 | adding without duplicates keeps the list free of them |
| Mappings.CompareAntisymmetric | defaults/JSXTransformer.js:11829-11857 | the comparator never puts two mappings both ways |
| Mappings.CompareTransitive | defaults/JSXTransformer.js:11829-11857 | the comparator is transitive |
| Mappings.CompareSame | defaults/JSXTransformer.js:11829-11857 | it takes two valid mappings for the same exactly if they are the same once serialised |
| Mappings.InOrderExactly | defaults/JSXTransformer.js:11829-11857 | the order by line, column, source, original line, original column and name |
| Mappings.StringsInOrder | defaults/JSXTransformer.js:11774-11780 | strings are ordered by the first place where they differ |
| PositionSearch.SearchAnswers | defaults/JSXTransformer.js:10360-10418 | the recursive search finds an equal element if there is one, else the last smaller one, else nothing |
| PositionSearch.SearchIsLinearScan | defaults/JSXTransformer.js:10360-10418 | without ties it agrees with a linear scan |
| SourceMapGenerators.SourceMapGenerator.AddMapping | defaults/JSXTransformer.js:10993-11018 | adds a valid mapping with its source and name; an invalid one is refused without effect |
| SourceMapGenerators.SourceMapGenerator.SerializeMappings | defaults/JSXTransformer.js:11166-11227 | writes the text of the sorted mappings by running differences |
| SourceMapConsumers.SourceMapConsumer.ParseMappings | defaults/JSXTransformer.js:10607-10683 | reads a text by running differences; after a fault, the mappings read before it stay |
| SourceMapConsumers.SourceMapConsumer.OriginalPositionFor | defaults/JSXTransformer.js:10724-10756 | the original found by the search, and the errors for bad text, lines and columns |
| SourceMapConsumers.LookupFindsRegion | defaults/JSXTransformer.js:10724-10756 | a lookup gives the original of the last mapping that is not behind the position |
| SourceMapConsumers.LastOriginalIs | defaults/JSXTransformer.js:10724-10756 | that is the last mapping in an earlier line, or in the same line at no later column |
| MappingText.SegmentIsReadBack | defaults/JSXTransformer.js:10629-10673 | a written segment is read as the numbers it consists of, each modulo 2^31 |
| MappingText.SegmentOfMapped | defaults/JSXTransformer.js:11195-11217 | the numbers of a segment, in order, each as a difference to the one before |
| MappingText.TextGoesOn | defaults/JSXTransformer.js:11184-11195 | the separators between segments, and the column that starts over in each line |
| MappingText.TooFewNumbers | defaults/JSXTransformer.js:10629-10665 | a source without a line, or a line without a column, is a fault |
| MappingText.MapComesBack | defaults/JSXTransformer.js:11166-11227 | parsing a serialised map gives the sorted mappings without repetitions exactly if all differences are below 2^30 in magnitude |
| MappingText.SmallFits | defaults/JSXTransformer.js:11166-11227 | lines, columns and lists below 2^30 are enough for that |
| SourceNodes.Printer.Walk | defaults/JSXTransformer.js:11478-11494 | walking a tree prints its non-empty snippets from left to right |
| SourceNodes.SnippetAlone | defaults/JSXTransformer.js:11478-11494 | a snippet prints itself and comes from the source, line, column and name of its node |
| SourceNodes.NodeAlone | defaults/JSXTransformer.js:11478-11494 | a nested node prints what it prints by itself, with the same origins |
| SourceNodes.ChildrenInTurn | defaults/JSXTransformer.js:11478-11494 | a node prints what its front children print and then what the others do, with their origins |
| GeneratedPositions.PositionIs | defaults/JSXTransformer.js:11632-11639 | lines count line breaks, and columns the characters since the last one |
| SourceNodes.ToStringWithSourceMap | defaults/JSXTransformer.js:11587-11650 | printing fails exactly if some snippet has an invalid origin; otherwise the mappings, at increasing positions, lead from every character to the origin of its snippet |
| SourceNodes.AllPrintedAttributes | defaults/JSXTransformer.js:11587-11650 | the same for every list of snippets, with the invariant of the running state |
| SourceNodes.SortIsUnique | defaults/JSXTransformer.js:11183 | sorting cannot change the mappings made by printing |
| SourceNodes.EveryCharacterIsFound | defaults/JSXTransformer.js:11587-11650 | printing, sorting, serialising, parsing and searching lead from every character of the code to the origin of its snippet |
| SourceNodes.PrintAndLookUp | defaults/JSXTransformer.js:11587-11650 | the methods run one after the other: print, sort, serialise, make a consumer, and ask for the original of a character, which is where its snippet comes from |
| CodeLines.TakingBetween | defaults/JSXTransformer.js:11343-11400 | shifting lines and cutting columns from one position to a later one takes exactly the code in between |
| CodeLines.LinesHaveNoBreaks | defaults/JSXTransformer.js:11334 | the lines are what stands between line breaks |
| SourceNodeReader.FromStringWithSourceMap | defaults/JSXTransformer.js:11326-11421 | the loop over the mappings, with the shifting of lines and the error for a missing line |
| SourceNodeReader.TextIsKept | defaults/JSXTransformer.js:11326-11421 | the tree built has exactly the text of the code if and only if all mappings are in lines of the code |
| SourceNodeOrigins.OriginsAre | defaults/JSXTransformer.js:11326-11421 | for mappings in lines of the code, with any columns, the tree has the text of the code, and each character comes from the last mapping not behind it, where a line break has every mapping of its line before it |
| SourceNodeOrigins.OriginsAreKeptExactlyIf | defaults/JSXTransformer.js:11326-11421 | the tree has the text of the code and each character comes from where the map says exactly if all mappings are in lines of the code and no line break has a different original behind the end of its line |
| SourceNodeOrigins.SameTree | defaults/JSXTransformer.js:11349-11388 | a column behind the end of its line makes the same tree as the end of the line |
| SourceNodeOrigins.ReadAndPrinted | defaults/JSXTransformer.js:11326-11421 | printing that tree again gives the same code, and a map with the same original for each character exactly under that condition on line breaks |
| SourceNodeOrigins.ColumnBehindLine | defaults/JSXTransformer.js:11349-11354 | an input where a column behind the end of its line shifts the line break to the wrong original |
| BinaryExpressions.Parser.ParseBinaryExpression | defaults/JSXTransformer.js:6151-6212 | returns the one tree that the productions of ECMA-262, sections 11.5 to 11.11, derive from the operands and operators up to where no operator follows, with the range of each node, and throws exactly if there is none; the flag is restored exactly if it was set or the token behind the first operand is a binary operator |
| BinaryExpressions.LoneOperandSetsFlag | defaults/JSXTransformer.js:6151-6164 | a single operand parsed with the flag off leaves it on |
| BinaryExpressions.DerivedExactly | defaults/JSXTransformer.js:6072-6141 | the precedences give exactly the trees that the grammar derives |
| BinaryExpressions.DerivedOnce | defaults/JSXTransformer.js:6143-6149 | the grammar derives at most one tree that no operator follows |
| BinaryExpressions.SumOfProduct | defaults/JSXTransformer.js:6151-6212 | a sum of an operand and a product is parsed as such |
| BinaryExpressions.TreeIsUnique | defaults/JSXTransformer.js:6143-6149 | for given precedences there is at most one tree |
| BinaryExpressions.YieldIsInput | defaults/JSXTransformer.js:6151-6212 | the tokens of the tree are the input |
| BinaryExpressions.Reduced | defaults/JSXTransformer.js:6176-6186 | reducing keeps the stack invariant: precedences strictly increase, each tree starts at its marker |
| BinaryExpressions.Shifted | defaults/JSXTransformer.js:6188-6195 | shifting keeps it |
| BinaryExpressions.ReduceAll | defaults/JSXTransformer.js:6200-6209 | the final loop combines the stack into one tree |
| Destructuring.DeclarationMeaning | defaults/JSXTransformer.js:14178-14278 | compiled destructuring is free of syntax errors exactly for sound patterns, and then binds every variable as direct matching does, fails when that fails, and leaves earlier temporaries alone |
| Destructuring.OneElementMore | defaults/JSXTransformer.js:14203-14251 | what matching an array pattern binds, element by element |
| Destructuring.OnePropertyMore | defaults/JSXTransformer.js:14203-14278 | what matching an object pattern binds, property by property, for names, literal keys and a rest |
| Destructuring.CodeOfOneElementMore | defaults/JSXTransformer.js:14203-14251 | the code for an array pattern, element by element |
| Destructuring.CodeOfOnePropertyMore | defaults/JSXTransformer.js:14203-14278 | the code for an object pattern, property by property, with the names that a rest excludes |
| Destructuring.PatternFresh | defaults/JSXTransformer.js:14203-14251 | temporaries are assigned at most once, by increasing index |
| Destructuring.PatternValid | defaults/JSXTransformer.js:14203-14251 | a missing component or a missing excluded name appears exactly for empty patterns and for an object rest beside a literal key |
| Destructuring.LiteralKeyBreaksRest | defaults/JSXTransformer.js:14840-14876 | a pattern with a literal key and a rest that compiles to a syntax error |
| Destructuring.Scope.GetDestructuredComponents | defaults/JSXTransformer.js:14203-14251 | the recursion over a pattern that takes temporaries from the scope |
| Destructuring.Scope.VisitStructuredVariable | defaults/JSXTransformer.js:14178-14189 | a declaration takes one temporary more for its value |
| Transactions.Transaction.Perform | defaults/react-with-addons.js:16 | the whole method: calls, stored data, flag and error; without an error the value is what the body returned when it was called; inside a transaction it refuses without effect |
| Transactions.Transaction.InitializeAll | defaults/react-with-addons.js:16 | the loop with its recursion in the finally block |
| Transactions.Transaction.CloseAll | defaults/react-with-addons.js:16 | the loop with its recursion in the finally block; the data is always cleared |
| Transactions.CallsAreMade | defaults/react-with-addons.js:16 | for every pattern of throws each initialiser is called once in order, the body only if all succeed, each close handler whose initialiser succeeded once in order, and the error thrown first escapes |
| Transactions.ValueIsOfBody | defaults/react-with-addons.js:16 | with honest wrappers the value is that of the body called right behind the initialisers |
| Transactions.InitializersAre | defaults/react-with-addons.js:16 | the initialisers called, by increasing index |
| Transactions.ClosersAreThese | defaults/react-with-addons.js:16 | the close handlers called, by increasing index, each with the result of its initialiser |
| Transactions.CallsAreMadeExactlyIfHonest | defaults/react-with-addons.js:16 | the calls are these exactly if no initialiser returns the sentinel itself where that matters |
| Transactions.SentinelIsTakenForError | defaults/react-with-addons.js:16 | a transaction in which nothing throws, yet an initialiser is called twice and a wrapper is not closed |
| PathNormalizer.Parts.NormalizeArray | defaults/JSXTransformer.js:2045-2070 | the right-to-left loop with its counter leaves what walking the path from left to right leads to |
| PathNormalizer.OneSegmentMore | defaults/JSXTransformer.js:2045-2070 | what one more segment does to what a path leads to |
| PathNormalizer.NormalizingIsIdempotent | defaults/JSXTransformer.js:2045-2070 | the result has no ".", and ".." only in front and only if allowed; normalising it again changes nothing |
| PathNormalizer.NormalExactlyIfFixed | defaults/JSXTransformer.js:2045-2070 | exactly the paths of that form are left as they are |
| Checksums.Checksum | defaults/react-with-addons.js:16 | the unrolled loops give the per-character Adler-32 sums, joined into a signed word; every number on the way is a safe integer |
| Checksums.AdlerIs | defaults/react-with-addons.js:16 | the two sums in closed form, modulo 65521 |
| Checksums.OrIsSum | defaults/react-with-addons.js:16 | joining the shifted sum and the other one by bits is adding them |
| Ancestors.GetLowestCommonAncestor | defaults/react-with-addons.js:14 | the deepest common ancestor-or-self, or nothing exactly if there is none |
| Ancestors.PathIsChain | defaults/react-with-addons.js:14 | a path begins with the instance and goes from each instance to its parent up to the root |
| Ancestors.IsAncestor | defaults/react-with-addons.js:14 | tells exactly whether one instance is an ancestor of, or is, the other |
| Ancestors.TraverseTwoPhase | defaults/react-with-addons.js:14 | visits the path from the root down and then up again |
| Ancestors.TraverseEnterLeave | defaults/react-with-addons.js:14 | leaves and enters the private parts of the two paths |
| Ancestors.PrivateIs | defaults/react-with-addons.js:14 | the private part of a path is exactly what is no ancestor of the other instance |

## Left out

- Sockets, threads, timers, the handshake, logging and sending of WebSocket frames: input and output around the reader.
- WebSocketSocket.Socket.SeekRecvBuffer: the capacity check of the buffer is memory management of a Qt container, and closing the connection is only reported, by the result.
- WebSocketSocket.Socket.ReadRequest: a read that fails, and the call that does nothing while a worker is running.
- The order of control frames among themselves: the code does not keep it once a data frame is queued.
- Strings of source maps are sequences of Dafny characters: their order stands for that of UTF-16 code units, and lone surrogates cannot be expressed.
- Sorting of mappings: the array sort of the JavaScript engine is a parameter, any sorted permutation.
- `sourceRoot`, URL joining, source contents, `applySourceMap`, lookups by original position and the JSON form of source maps: they would only add easy members.
- A consumer made directly from a generator, without text: its unmapped positions have `false` where a parsed map has nothing.
- SourceMapGenerators.SourceMapGenerator.AddMapping: an empty source or name of a mapping without an original is stored as absent, since nothing can be told from it.
- Base64Vlq.Decode: a result of minus zero is the integer 0.
- Trees of source nodes are values, since printing only reads them; the root that `fromStringWithSourceMap` fills is the list of its children.
- Operands of the expression parser are opaque tokens, and positions count tokens instead of characters; comments attached to nodes are left out.
- Compiled destructuring is a list of assignments instead of text; reading a property, slicing and copying are parameters without side effects, and the initial value takes no temporary of its own.
- Destructuring of parameters and of assignment expressions.
- Destructuring.DeclarationMeaning: temporaries and variables are separate name spaces, so a variable with the name of a temporary (`$__0`) is not covered; nor is a key `__proto__` beside an object rest, which the exclusion literal of the code does not exclude.
- Wrappers, bodies and close handlers of transactions are functions of the calls made so far; handlers that reinitialise the transaction they run in are left out.
- Checksums.Checksum: strings of 2^31 code units or more, which no engine has, are excluded.
- Each child in reconciliation is one node; mounting, props, context and the two comment nodes around text are left out, and keys are enumerated in insertion order.
- DomUpdates.ProcessUpdates: the kinds of update that set text or markup instead of children; flattening of nested children is left out too.
- Instances in the ancestor routines are values, told apart by identifiers; the links to parents never change there.
- The byte codec for base 64, UTF-8 conversion, the statements, types and lexer of the parser, class and arrow rewriting, and the rest of both JavaScript files.
