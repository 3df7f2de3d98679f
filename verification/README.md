# A model of the peer-to-peer MapReduce system and its XML engine

Peers exchange XML messages, which the bundled engine pugixml prints, parses in place and can query with
XPath; a task hands its parameters to peers and takes them back. This project models the hard parts of both
layers in Dafny and proves what they are for. Code that rewrites buffers, arrays, links or fields is modelled
by methods over arrays, linked objects and fields; each is proved against a function or a relation on values,
and the lemmas are about those.

- **Transcoding and buffered output** (`Utf`, `BufferedWriter`, `EncodedText`): decoders, counters and writers
  for UTF-8, UTF-16 and UTF-32, and the writer that delivers its text in chunks.
- **Parser** (`Chars`, `Refs`, `StrConv`, `Dom`, `Parser`, `Offsets`, `ParserImpl`): `Parser` says what
  parsing a buffer with the default options gives, errors with status and offset included; `ParserImpl`
  rewrites the buffer in place, with gaps moved as the original does, and is proved to give the same.
- **Language** (`RefLaws`, `Grammar`, `GrammarSound`, `GrammarRead`, `ParseErrors`, `Spelling`): a grammar of
  the accepted inputs with the nodes they mean, and the theorem that the parser accepts exactly these; what
  references and white space stand for.
- **Printer and round trips** (`Printer`, `Escaping`, `Canon`, `Layout`, `PrintLaws`, `TagTrip`, `RoundTrip`):
  output of documents, and the theorem that parsing what was printed gives the tree in canonical form, whatever the
  tree; `Layout` shows indented output to be raw output of a tree with more text.
- **Messages** (`Decimal`, `Message`, `MessageParse`, `MessageTrip`, `MessageLaws`, `PeerWire`): building a
  request, reading it back, the round trip on top of the XML one, and the requests a task sends.
- **Task protocol** (`TaskState`, `Task`): the places a parameter can be in, the steps of the handlers, all
  runs; and the class whose handlers take these steps.
- **Sorting** (`Perm`, `Sort`): insertion sort, three-way quicksort, reversal and removal of duplicates.
- **XPath** (`Tree`, `Preorder`, `AxisSets`, `Axes`, `AxisLaws`, `DocOrder`, `NodeSet`, `XPath`, `XPathSets`,
  `XPathLaws`, `Posinv`): axes walked along links, document order, node sets with their order tag, the
  evaluator with what its steps and predicates select, and the filter that skips a sort.
- **Memory and links** (`Pages`, `Allocator`, `ChildList`, `Links`, `DeepCopy`): the page allocator, the
  half-cyclic list of children and the tree it stands for, and copies of a node into itself.

What the proofs show about the code beyond its intent:

- The parser judges the input as far as its first zero byte together with the last byte, which it saved: what
  stands between them is never looked at (`Effective` in `GrammarSound`). Text outside every element is
  accepted and dropped, and a document may have any number of root elements, or none.
- A peer that has executed nothing is accepted once the threshold has been lowered, even when others with a
  record are refused (`MapReduce/src/Task.cpp:521`); and a higher workload counts in a peer's favour.
- The document order comparator answers yes when asked about an attribute and itself
  (`pugixml/pugixml.cpp:5546-5557`), so it is not a strict order. It agrees with document order on any two
  different nodes, and `Sort` is proved for such comparisons as long as no such element occurs twice, which
  the node-set invariant guarantees.
- Printing and parsing loses exactly this: what follows a zero byte, carriage returns in text, tabs in
  attribute values (they become spaces), text of white space only, the boundary between adjacent texts, and
  the unity of a CDATA section that contains its own terminator.
- A request is sent with its state map, which the reading side never looks at; task identifier and result
  flag are derived from the task map and the result list.
- Indented output is read back unchanged only where text stands alone in its element; beside other nodes a
  text comes back with the line feeds and the indentation around it.
- `Task` removes a node by its peer identity (`MapReduce/src/Task.cpp:483-496`). When two task nodes stand
  for one peer, which happens after the try list is cleared, the wrong one may go. No parameter is misplaced
  by that alone; but the node that failed stays listed, and when its connection breaks later the parameter it
  gave back is taken from whoever has it by then (`WrongNodeRemoved`). While peers speak in turn this is the
  only way for a parameter to get into two hands (`RunInTurn`).
- A refusal is not checked against a request: a node that refuses twice takes its old parameter away from the
  node it was offered to since (`RefusedTwice`).
- The broken connection of a peer that was asked and has not answered changes nothing: its parameter stays in
  the try map.
- A refused parameter need not be offered again at once: a round that finds every listed peer unavailable
  when no peer is missing neither asks nor, unless it gives up, cancels.
- A round gives up only after trying every listed peer but the last with the lower threshold
  (`MapReduce/src/Task.cpp:67-73`); so a peer that is itself listed before the last place never gives up.
- A result is recorded under its parameter's own index exactly when the parameter survives being sent and no
  earlier parameter is equal (`EchoFound`).

## Model

| member | source | states |
|---|---|---|
| Utf.CounterMeasuresWriter | pugixml/pugixml.cpp:599-718 | For any decoder calls the length the counter adds up is the number of units the writer produces, so the second pass of a conversion fills exactly what the first pass measured |
| Utf.DecodeUtf8Block | pugixml/pugixml.cpp:770-829 | For every byte string, every address of its first byte and every traits object the loop with the aligned four-byte ASCII fast path makes the calls of the byte-at-a-time decoding, malformed bytes skipped |
| Utf.DecodeUtf16Block | pugixml/pugixml.cpp:831-873 | For every unit sequence, swapped or not, the loop makes the calls of the reference decoding; unpaired surrogates are dropped |
| Utf.Utf8EncodeDecode | pugixml/pugixml.cpp:620-663 | Scalar values written by the UTF-8 writer are decoded back unchanged (section 3 of RFC 3629) |
| Utf.Utf16EncodeDecode | pugixml/pugixml.cpp:680-706 | Scalar values written by the UTF-16 writer are decoded back unchanged (section 2 of RFC 2781) |
| Utf.Decode16Scalars | pugixml/pugixml.cpp:831-873 | Whatever it is given, the UTF-16 decoder yields scalar values only |
| Utf.Reencode8 | pugixml/pugixml.cpp:770-829 | Well formed UTF-8 decodes to scalar values and encodes back to the same bytes |
| Utf.Utf16ThroughUtf8 | pugixml/pugixml.cpp:1205-1225 | UTF-16 to UTF-8 to UTF-16 gives the text back if and only if every surrogate is paired |
| Utf.Utf8ThroughUtf16 | pugixml/pugixml.cpp:2578-2612 | UTF-8 to UTF-16 to UTF-8 gives the bytes back if and only if they are well formed |
| EncodedText.SequenceRead | pugixml/pugixml.cpp:770-829 | A complete sequence at the front is one call with the bits of its bytes, and an ASCII byte is itself |
| EncodedText.MalformedPassed | pugixml/pugixml.cpp:770-829 | A byte that starts no complete sequence is passed over |
| EncodedText.UnpairedPassed | pugixml/pugixml.cpp:831-873 | A surrogate without its partner is passed over |
| EncodedText.Delivered16 | pugixml/pugixml.cpp:2578-2612 | Text delivered in UTF-16 and read back in its byte order, either one, decodes to the same text |
| EncodedText.Delivered32 | pugixml/pugixml.cpp:2578-2612 | Text delivered in UTF-32 and read back in its byte order, either one, gives its code points |
| Refs.RefWithin | pugixml/pugixml.cpp:1449-1581 | A reference never reaches past a byte that cannot be part of one, so recognising it inside a longer buffer gives the same result |
| Refs.ConvertNoRef | pugixml/pugixml.cpp:1449-1581 | An ampersand that starts no reference, and the bytes the scan has looked at behind it, stay as they are |
| Refs.ConvertPlainRun | pugixml/pugixml.cpp:1643-1676 | A run without line ends, references or white space to convert is copied as it is |
| RefLaws.AccumulateIs | pugixml/pugixml.cpp:1457-1506 | Decimal or hexadecimal figures, in any case and with any leading zeros, are accumulated to the number they stand for, modulo 2^32 |
| RefLaws.RefExactly | pugixml/pugixml.cpp:1449-1581 | A reference is found at an ampersand if and only if one stands there: one of the five names, or figures between "&#" or "&#x" and a semicolon; its meaning is that of the name or number |
| RefLaws.NumbersRead | pugixml/pugixml.cpp:1457-1506 | For every number below 2^32, its decimal and its hexadecimal text in either case, made a reference, are read as that character |
| RefLaws.ConvertStands | pugixml/pugixml.cpp:1643-1676 | Where a reference stands, the text becomes what it stands for |
| RefLaws.ConvertLone | pugixml/pugixml.cpp:1643-1676 | An ampersand where no reference stands is kept |
| RefLaws.ConvertUpTo | pugixml/pugixml.cpp:1643-1676 | Up to the next ampersand a text becomes what it does where references mean nothing |
| RefLaws.ConvertIs | pugixml/pugixml.cpp:1643-1840 | Where references mean nothing: line ends become line feeds, or every white space (CR LF counting once) becomes a space, or every run of white space a single one, and nothing else changes (sections 2.11 and 3.3.3 of XML 1.0) |
| Spelling.CharacterClasses | pugixml/pugixml.cpp:926-954 | The classes of characters are those of the table: white space, symbols and start symbols |
| Spelling.ReferenceNames | pugixml/pugixml.cpp:1507-1575 | The names of the references are amp, apos, gt, lt and quot |
| StrConv.Gap.Push | pugixml/pugixml.cpp:1418-1432 | The bytes between the old gap and the new one move down and the two gaps become one: the text kept so far is exactly what it was, without the bytes taken out |
| StrConv.Gap.Flush | pugixml/pugixml.cpp:1435-1446 | After the last move the kept text ends at the returned position |
| StrConv.StrconvEscape | pugixml/pugixml.cpp:1449-1581 | At an ampersand the buffer is rewritten to the expansion of the reference there, or the bytes looked at are stepped over; writes stay at or below the read position |
| StrConv.StrconvPcdata | pugixml/pugixml.cpp:1643-1676 | When the text ends at a tag, the buffer starts with the line-end normalised, reference-expanded text and a zero; nothing from the returned position on has changed (sections 2.11 and 4.1 of XML 1.0) |
| StrConv.StrconvAttributeWconv | pugixml/pugixml.cpp:1748-1782 | Up to the closing quote the value is replaced by its text with white space turned into spaces and references expanded; 0 is returned if and only if the quote is missing |
| StrConv.StrconvAttributeEol | pugixml/pugixml.cpp:1784-1840 | In the modes that only normalise line ends, or not even these, the value is replaced by its text with references expanded; 0 is returned if and only if the quote is missing |
| StrConv.StrconvAttributeWnorm | pugixml/pugixml.cpp:1696-1746 | The value is replaced by its text with references expanded and white space runs collapsed and trimmed at both ends (section 3.3.3 of XML 1.0); the unguarded backward loop never passes the opening quote |
| StrConv.StrconvCdata | pugixml/pugixml.cpp:1613-1639 | The section text up to the first terminator is replaced by its line-end normalised form, the terminator possibly ending in the replaced last byte |
| StrConv.StrconvComment | pugixml/pugixml.cpp:1585-1611 | The text of a comment up to its first terminator is replaced by its line-end normalised form |
| Offsets.CursorKept | pugixml/pugixml.cpp:2208-2423 | Names and values the parser has finished are not disturbed by anything it writes further on |
| Offsets.HeldRead | pugixml/pugixml.cpp:2208-2423 | A text that was terminated in the buffer is what later reads from its position see, up to an embedded zero |
| ParserImpl.OpenTagAt | pugixml/pugixml.cpp:2224-2337 | A start tag parsed in place leaves the cursor, position or error of the functional parser |
| ParserImpl.AttributesAt | pugixml/pugixml.cpp:2239-2317 | The attribute loop in place leaves the attributes in order, and every error at the offset the functional parser gives |
| ParserImpl.AttributeAt | pugixml/pugixml.cpp:2244-2288 | One attribute parsed in place is the attribute, position or error of the functional parser: name, white space around the equals sign, quotes, the byte behind the value |
| ParserImpl.EndTagAt | pugixml/pugixml.cpp:2338-2369 | An end tag in place is compared byte by byte with the open name; mismatch and truncation give the status and offset of the functional parser |
| ParserImpl.QuestionAt | pugixml/pugixml.cpp:2115-2206 | A declaration or processing instruction is passed over under the default options |
| ParserImpl.ExclamationAt | pugixml/pugixml.cpp:2005-2113 | A CDATA section becomes a node, a comment is passed over, DOCTYPE is reported as not modelled |
| ParserImpl.TextAt | pugixml/pugixml.cpp:2384-2418 | Text becomes a node inside an element; white space between tags and text outside the root are dropped |
| ParserImpl.ParseAt | pugixml/pugixml.cpp:2208-2423 | The whole loop over the zero-terminated buffer, rewriting it in place, gives the tree or the error of the functional parser |
| ParserImpl.ParseInPlace | pugixml/pugixml.cpp:2425-2464 | For every buffer, the entry point with its replaced last byte gives the tree or error of the functional parser, the false positive of a final "<" corrected |
| GrammarSound.EndTagExactly | pugixml/pugixml.cpp:2338-2369 | With an element open, an end tag is accepted if and only if the open name stands there, followed by no symbol but by optional white space and ">" or the replaced last byte; otherwise the error is a mismatch, or a bad end element when the last byte would have completed the name or nothing closes the tag |
| GrammarSound.AcceptedIsWritten | pugixml/pugixml.cpp:2208-2463 | Whatever is accepted is written in the grammar, in which each element is closed by its own name and nothing stays open, and means the nodes built |
| GrammarRead.WrittenIsAccepted | pugixml/pugixml.cpp:2208-2463 | Whatever is written in the grammar is accepted, and the nodes built are those it means, although the last byte is replaced |
| GrammarRead.AcceptedExactly | pugixml/pugixml.cpp:2208-2463 | For every input: it is accepted with these nodes if and only if it is written in the grammar (elements, attributes, text, CDATA sections, comments and instructions) with that meaning |
| ParseErrors.ErrorsTell | pugixml/pugixml.cpp:2208-2463 | Every error lies within the input, and its status names the kind of markup before it that is to blame, or an element left open |
| Spelling.ParserTexts | pugixml/pugixml.cpp:2044-2083 | The texts the parser looks for are spelled as the standard has them |
| BufferedWriter.GetValidLength | pugixml/pugixml.cpp:2562-2576 | The chunk length found is within four bytes of the limit, and no complete multi-byte sequence crosses it whatever follows |
| BufferedWriter.SplitDecode | pugixml/pugixml.cpp:2562-2612 | For all byte strings: decoding commutes with splitting where no sequence crosses; where one does, exactly one call is lost |
| BufferedWriter.SplitDelivered | pugixml/pugixml.cpp:2578-2612 | A chunk may be converted on its own if and only if no sequence crosses its end |
| BufferedWriter.ChunkedIsWhole | pugixml/pugixml.cpp:2615-2774 | Chunked delivery equals one conversion of the whole if and only if the encoding is native or no chunk boundary cuts a sequence; it never delivers more |
| BufferedWriter.DeliveredFits | pugixml/pugixml.cpp:2630-2652 | A converted chunk never exceeds the scratch area of four times the buffer |
| BufferedWriter.ConvertBuffer | pugixml/pugixml.cpp:2578-2612 | Decoding, writing and byte swapping give the specified conversion |
| BufferedWriter.Writer.Write | pugixml/pugixml.cpp:2654-2693 | Everything written so far is what was delivered followed by what is buffered; if the write cuts no sequence, what is delivered plus the conversion of the buffer stays the conversion of the whole |
| BufferedWriter.Writer.WriteChunks | pugixml/pugixml.cpp:2663-2688 | Large data goes out in chunks within four bytes of the buffer size that cut no sequence; what each is converted to fits the scratch area |
| BufferedWriter.Writer.WriteFew | pugixml/pugixml.cpp:2700-2774 | The overloads for a few bytes append them and keep both invariants of the writer |
| BufferedWriter.Writer.Flush | pugixml/pugixml.cpp:2630-2652 | What is buffered is delivered and the buffer emptied; both invariants of the writer stay |
| BufferedWriter.Writer.Close | pugixml/pugixml.cpp:2625-2628 | In the end the underlying writer has received the conversion of everything written, if and only if no chunk boundary cut a sequence |
| Printer.TextOutputEscaped | pugixml/pugixml.cpp:2805-2844 | What is written is the text up to its first zero with special bytes as references, runs of usual bytes in one write |
| Printer.TextOutputCdata | pugixml/pugixml.cpp:2846-2866 | A text is written as one or more sections, cut inside each terminator it contains; the loop ends |
| Printer.SectionsJoin | pugixml/pugixml.cpp:2846-2866 | The sections of a CDATA text together hold the text |
| PrintLaws.EscapedByte | pugixml/pugixml.cpp:2805-2844 | Every byte is written as itself but for markup, control bytes and, in attributes, quotes and line feeds, which become named references or decimal ones of two figures |
| PrintLaws.PrintedLines | pugixml/pugixml.cpp:2884-3011 | Indented output is a list of lines, each with as many indentation strings as its depth: children one level deeper, an element without children or with a single text on one line |
| Spelling.PrinterTexts | pugixml/pugixml.cpp:2805-2866 | The texts the printer writes are spelled as the standard has them |
| Spelling.DeclarationText | pugixml/pugixml.cpp:4663-4676 | The declaration written is that of XML 1.0 |
| Canon.SectionsSound | pugixml/pugixml.cpp:2846-2866 | No section of a CDATA text contains the terminator, so reading back finds the end of each |
| Printer.OutputAttributes | pugixml/pugixml.cpp:2868-2882 | Attributes are written in order, each with its escaped value |
| Printer.NodeOutput | pugixml/pugixml.cpp:2884-3011 | The recursive output of a node with indentation equals its printed form, raw or indented |
| Printer.Save | pugixml/pugixml.cpp:4663-4676 | Saving writes the declaration and the nodes; with the native encoding the underlying writer receives the printed document |
| Escaping.ConvertEscapedText | pugixml/pugixml.cpp:2805-2844 | Character data escaped for output and converted by the parser is the original with line ends normalised |
| Escaping.ConvertEscapedAttribute | pugixml/pugixml.cpp:2805-2844 | An attribute value escaped for output and converted by the parser is the original with tabs turned into spaces |
| Escaping.EscapedBytes | pugixml/pugixml.cpp:2805-2844 | Escaped text holds no markup byte and no zero, and is white space only if the text was |
| Escaping.EolIdentity | pugixml/pugixml.cpp:1643-1676 | Line-end normalisation leaves a text alone if and only if it has no carriage return |
| Canon.CanonNodesStable | pugixml/pugixml.cpp:2208-2423 | What printing and parsing makes of children would survive another round |
| Canon.StableNodesCanonical | pugixml/pugixml.cpp:2208-2423 | Children that are stable are left alone by printing and parsing |
| Canon.CanonIdentity | pugixml/pugixml.cpp:2208-2463 | The canonical form of an element is the element itself if and only if it is stable |
| TagTrip.StartParsed | pugixml/pugixml.cpp:2224-2317 | A printed start tag with its attributes is read back, tabs in values as spaces |
| TagTrip.EndParsed | pugixml/pugixml.cpp:2338-2369 | A printed end tag closes its element, even when its last byte was replaced |
| TagTrip.TextParsed | pugixml/pugixml.cpp:2384-2418 | Printed character data is read back up to the next tag |
| TagTrip.SectionsParsed | pugixml/pugixml.cpp:2044-2083 | The sections of a CDATA text are read back one node each |
| RoundTrip.ElementParsed | pugixml/pugixml.cpp:2208-2463 | From an element printed raw the parser builds its canonical form, wherever it stands in the buffer |
| RoundTrip.ContentParsed | pugixml/pugixml.cpp:2208-2463 | From children printed raw behind text still to be read the parser builds the canonical children |
| RoundTrip.DeclarationParsed | pugixml/pugixml.cpp:2115-2206 | The declaration written by save is passed over |
| Layout.SpreadPrinted | pugixml/pugixml.cpp:2884-3011 | Indented output is the raw output of the tree in which every line feed and indentation is a text of its own |
| Layout.SpreadCanon | pugixml/pugixml.cpp:2384-2418 | Where text stands alone in its element, the parser drops line feeds and indentation without a trace |
| Layout.SpreadIdentity | pugixml/pugixml.cpp:2208-3011 | With the line feeds and indentation in it, a tree is read back as itself if and only if it is stable and, in indented output, no text stands beside other nodes |
| RoundTrip.PrintThenParse | pugixml/pugixml.cpp:2208-3011 | For every single-root tree with XML names, raw or indented output, declaration or not: parsing the printed bytes succeeds and gives the canonical form of the tree, line feeds and indentation joining the text where text stands beside other nodes |
| RoundTrip.PrintThenParseAlone | pugixml/pugixml.cpp:2208-3011 | Where text stands alone in its element, indented output is read back as raw output is |
| RoundTrip.PrintThenParseIdentity | pugixml/pugixml.cpp:2208-3011 | Parsing what was printed gives the tree itself if and only if the tree is stable (no zeros, no CR in text, no tab in attributes, no adjacent or white-space-only text, no terminator inside CDATA) and, when the output is indented, text stands alone in its element |
| Decimal.AtoiToText | MapReduce/src/Message.cpp:25-45 | An integer written by lexical_cast is read back by atoi |
| Message.RequestMessage.GetXML | MapReduce/src/Message.cpp:22-88 | The cached text if there is one; otherwise the saved document built from the fields, each map in some order of its keys |
| MessageParse.GetTaskMap | MapReduce/src/Message.cpp:312-330 | The loop collects one entry per child, a later child of the same name winning |
| MessageParse.GetResult | MapReduce/src/Message.cpp:332-340 | The loop collects the texts of the children named "line" in order |
| MessageParse.ParseRequestMessage | MapReduce/src/Message.cpp:221-309 | Parsing a copy of the text in place and searching the tree gives the specified request, or none when the document, the request element, type, sender or port is missing |
| MessageLaws.NoRequest | MapReduce/src/Message.cpp:221-309 | A text is no request if and only if it does not parse, or has no request element with type, sender and port |
| MessageLaws.EntriesAre | MapReduce/src/Message.cpp:312-330 | A map has an entry exactly for the names of the children |
| MessageLaws.EntryOfLast | MapReduce/src/Message.cpp:312-330 | The last child of a name gives its value |
| MessageLaws.LinesOnly | MapReduce/src/Message.cpp:332-340 | Lines are collected wherever they stand, in order |
| MessageLaws.LineOfOne | MapReduce/src/Message.cpp:332-340 | A child is a line if and only if it is an element of that name |
| MessageLaws.FirstTextIs | pugixml/pugixml.cpp:3705-3720 | The value of a node is its first text, whatever elements come before |
| MessageLaws.AtoiReads | MapReduce/src/Message.cpp:221-309 | A number is read past white space and a sign up to the first byte that is no figure |
| Spelling.RequestNames | MapReduce/src/Message.cpp:22-88 | The elements of a request have the names the code gives them |
| Spelling.TaskNames | MapReduce/src/PeerNode.cpp:256-281 | The fields of a task have the names the code gives them |
| Spelling.RequestNumbers | MapReduce/src/Message.h:33-44 | The kinds of requests have the numbers of the enumeration |
| MessageTrip.HeardSound | MapReduce/src/Message.cpp:221-339 | A value arrives unchanged if and only if it has no zero and no CR and is not non-empty white space |
| MessageTrip.EntriesReceived | MapReduce/src/Message.cpp:312-330 | Fields with distinct names, in any order, are read back name by name |
| MessageTrip.RequestRoundTrip | MapReduce/src/Message.cpp:22-88 | For every request with XML names as keys, whatever order its maps iterate in: reading the sent text gives the header, the result list and both maps with every value as it arrives, the task identifier taken from the task map, and none of the state map |
| MessageTrip.RequestIdentity | MapReduce/src/Message.cpp:221-339 | Reading the sent text gives the request itself if and only if every value is sound, the task identifier is the one in the task map, and the result flag says whether there are results |
| PeerWire.Transmit | MapReduce/src/PeerNode.cpp:264-278 | A fresh request leaves as text that is understood as the request, every value as it arrives |
| PeerWire.TaskRequest | MapReduce/src/PeerNode.cpp:256-281 | Whatever the parameter, the peer asked understands who asks, the task, and the parameter as it arrives |
| PeerWire.TaskExecute | MapReduce/src/PeerNode.cpp:321-343 | The order to execute is understood as the order for that task, without parameter or result |
| PeerWire.TaskExecuteResult | MapReduce/src/PeerNode.cpp:389-413 | The asking peer understands the result lines in order, the status, and the parameter echoed; it takes the message for a result only if there is a line |
| PeerWire.HeardAgain | MapReduce/src/Message.cpp:221-339 | A value that has travelled once travels unchanged |
| PeerWire.EchoFound | MapReduce/src/Task.cpp:357-365 | A result is recorded under the index of its own parameter if and only if the parameter survives the journey and no earlier one is equal |
| TaskState.OpenWhileAsking | MapReduce/src/Task.cpp:99-102 | While a round still needs nodes, the open list it takes its first element from is not empty |
| TaskState.AskAllKeeps | MapReduce/src/Task.cpp:66-109 | Offering parameters to any number of new nodes keeps every invariant and takes at most one parameter per node |
| TaskState.RoundKeeps | MapReduce/src/Task.cpp:45-116 | After a round no peer is missing, or the task was cancelled, which happens exactly when the round gave up or found too few; a round that goes on keeps a parameter in one place if and only if it was so before |
| TaskState.AcceptKeeps | MapReduce/src/Task.cpp:308-329 | Acceptance keeps coverage; it keeps every parameter in one place if and only if the parameter is not open again and no other working node has it |
| TaskState.RefuseKeeps | MapReduce/src/Task.cpp:330-342 | Refusal keeps coverage and leaves an open parameter; it keeps every parameter in one place if and only if the parameter is not allotted and no other node is waiting with it |
| TaskState.GiveBackKeeps | MapReduce/src/Task.cpp:410-427 | A failed execution keeps coverage and leaves an open parameter; whichever node is dropped, every parameter stays in one place if and only if no other working node has it and the node is not waiting |
| TaskState.ListedGiveBack | MapReduce/src/Task.cpp:483-496 | The list of task nodes stays true, no node in it that does not work, if and only if the node removed by its peer identity is the node that failed |
| TaskState.DisconnectKeeps | MapReduce/src/Task.cpp:243-264 | A lost connection keeps coverage and leaves an open parameter; every parameter stays in one place if and only if no other working node was given it since and the node is not waiting |
| TaskState.NextKeeps | MapReduce/src/Task.cpp:171-211 | Every message keeps the invariants; after it no parameter is in two places if and only if the message was clean or ended the task |
| TaskState.WhyCancelled | MapReduce/src/Task.cpp:111-115 | A message ends the task only if the round after it gave up, or nobody was found in place of a node that just failed or was lost; a refusal ends it only by giving up |
| TaskState.RunSafe | MapReduce/src/Task.cpp:267-279 | In every run with at least one parameter, until it is cancelled, each parameter is open or a key of one of the maps, the open list has no repeats, and the remaining count is at most zero between messages |
| TaskState.RunExclusive | MapReduce/src/Task.cpp:267-279 | For every run, whatever the peers do: no parameter is ever in two places if and only if every message is clean, but for one that ends the task |
| TaskState.RunInTurn | MapReduce/src/Task.cpp:267-279 | For every run in which peers answer each request once and only accepted nodes fail: no parameter is ever in two places if and only if no connection breaks to a listed node whose parameter another node was given since |
| TaskState.RunOrderly | MapReduce/src/Task.cpp:267-279 | In every such run in which, besides, the node a failure removes by its peer identity is the one that failed, a parameter that a node holds or was sent is nowhere else |
| TaskState.ExclusiveHolders | MapReduce/src/Task.cpp:281-343 | In such a state two nodes waiting or running never hold the same parameter |
| TaskState.RefusedTwice | MapReduce/src/Task.cpp:330-342 | A run from the start in which a node refuses twice: its parameter, offered to a second node since, is taken back from it and offered to a third, so that two nodes wait with it |
| TaskState.WrongNodeRemoved | MapReduce/src/Task.cpp:410-413 | A run from the start in which every peer speaks in turn but a failure removes another node: the connection to the node still listed breaks later, and two nodes end up waiting with the same parameter |
| Task.Task.NodeSpeaks | MapReduce/src/PeerNode.cpp:171-176 | A node takes the identity its message claims, so the try list keeps one node for each peer if and only if no other node in it has that identity |
| Task.Task.AskOne | MapReduce/src/Task.cpp:88-106 | One candidate is connected, recorded and sent the first open parameter, which leaves the list only if the send succeeded |
| Task.Task.Consider | MapReduce/src/Task.cpp:81-109 | A listed peer is passed over only if it is this peer, is being tried, or cannot be reached |
| Task.Task.AskSome | MapReduce/src/Task.cpp:66-109 | The loop restarts at most once, with the lower threshold, and so terminates; it asks only listed peers other than this one, at most as many as needed, and no two with one identity between restarts; it gives up only after trying, with the lower threshold, every listed peer but the last |
| Task.Task.AskPeers | MapReduce/src/Task.cpp:45-116 | A round as specified. It cancels the task exactly when it gave up or found too few; it gives up only if this peer is not listed before the last place; and when it asked fewer nodes than needed, every listed peer (but the last, if it gave up) was passed over for a reason |
| Task.Task.Start | MapReduce/src/Task.cpp:23-33 | The first round of a task with parameters leaves it quiet and orderly, and cancels it only for want of peers |
| Task.Task.TaskCancel | MapReduce/src/Task.cpp:430-446 | Everything allotted is forgotten and the task stops |
| Task.EligibleExactly | MapReduce/src/Task.cpp:511-526 | The figure computed from a history reaches the threshold if and only if the history deserves it: no history never; no executions only at the lower threshold; otherwise the executions less twice the failures exceed the threshold by one execution spread over the workload |
| Task.WelcomeAtBoth | MapReduce/src/Task.cpp:511-526 | A peer without a history is never accepted, one without executions only at the lower threshold, and the lower threshold turns nobody away |
| Task.WelcomeUnfailing | MapReduce/src/Task.cpp:511-526 | Without failures and workload a peer needs two executions at the higher threshold and one at the lower |
| Task.WelcomeMore | MapReduce/src/Task.cpp:511-526 | More executions, fewer failures or a higher workload never turn an accepted peer away |
| Task.Task.HandleTaskRequestResponse | MapReduce/src/Task.cpp:281-343 | Acceptance if the status and the eligibility allow it, otherwise refusal and a new round, which cancels the task only for want of peers |
| Task.Task.HandleTaskExecuteResponse | MapReduce/src/Task.cpp:394-428 | A failure gives the parameter back, removes the first task node of the peer identity and starts a round; success changes nothing |
| Task.Task.HandlePeerConnFailure | MapReduce/src/Task.cpp:213-265 | Takes the parameter back only from a task node that stands for the peer and has not delivered; for any other node, even one that was asked and has not answered, nothing changes |
| Task.Task.HandleTaskResult | MapReduce/src/Task.cpp:345-392 | The result is recorded under the first parameter equal to the one echoed; it is counted even when it reports failure |
| Task.Task.RemovePeerFromFinalNodes | MapReduce/src/Task.cpp:483-496 | The first node with the same peer identity is removed, whichever instance it is |
| Task.Task.RemovedById | MapReduce/src/Task.cpp:483-496 | That is the node meant if and only if no task node before it stands for the same peer |
| Task.Task.RemovePeerFromTryNodes | MapReduce/src/Task.cpp:468-481 | The first node of the try list with the same peer identity is removed |
| Task.Task.IsInTryNodes | MapReduce/src/Task.cpp:498-509 | Finds whether a node of that identity is being tried |
| Sort.InsertOne | pugixml/pugixml.cpp:4896-4920 | One element is inserted into the sorted front; the loop without a bound never passes the beginning |
| Sort.InsertionSort | pugixml/pugixml.cpp:4892-4921 | The range is rearranged and sorted |
| Sort.ScanRight | pugixml/pugixml.cpp:4937-4943 | Right scan: equal elements join the middle, and it stops at an element that belongs to the left |
| Sort.ScanLeft | pugixml/pugixml.cpp:4945-4951 | Left scan: equal elements join the middle, and it stops at an element that belongs to the right |
| Sort.ShiftLeft | pugixml/pugixml.cpp:4961-4966 | The equal elements move one place left around a greater element |
| Sort.ShiftRight | pugixml/pugixml.cpp:4967-4971 | The equal elements move one place right around a smaller element |
| Sort.Partition | pugixml/pugixml.cpp:4924-4973 | The range is rearranged into less, equal and greater with a non-empty equal part; the loop terminates |
| Sort.Median | pugixml/pugixml.cpp:4977-5001 | The middle element ends up with an element not greater before it and one not less behind it; nothing else than the range moves |
| Sort.Sort | pugixml/pugixml.cpp:5003-5031 | The range is rearranged and sorted, for every strict total order and every comparison that agrees with it on different elements, provided no element it calls less than itself occurs twice; recursive calls nest so that 32 * 2^(depth - 1) < size |
| Sort.SortSmaller | pugixml/pugixml.cpp:5005-5027 | Each round recurses into the smaller part only, and the part left is smaller and bounded by sorted margins |
| Sort.ShallowLog | pugixml/pugixml.cpp:5003-5031 | With every chunk over 32 elements, 32 * 2^(depth - 1) < size bounds the nesting of the recursion by the binary logarithm of the size |
| Sort.Reverse | pugixml/pugixml.cpp:4859-4862 | The range is reversed |
| Sort.Unique | pugixml/pugixml.cpp:4864-4885 | The front of the range holds the elements without equal neighbours, in order |
| Sort.DedupNoRepeats | pugixml/pugixml.cpp:4864-4885 | Removing equal neighbours leaves no repeats if and only if equal elements stood together |
| Sort.DedupElements | pugixml/pugixml.cpp:4864-4885 | Removing equal neighbours keeps the element set |
| Sort.RemoveDuplicates | pugixml/pugixml.cpp:6275-6281 | The element set is kept; no repeats are left if and only if the set was unsorted (and so sorted first) or its equal elements stood together |
| Perm.SortedIsIsort | pugixml/pugixml.cpp:5003-5031 | There is only one sorted arrangement, so the result is that of a simple insertion sort |
| Tree.NodeIsBefore | pugixml/pugixml.cpp:5475-5500 | For any two nodes of a tree the climb and the walk along siblings decide whether one comes first |
| Tree.NodeHeight | pugixml/pugixml.cpp:5462-5473 | Counts the node and its ancestors |
| Tree.IsLaterSibling | pugixml/pugixml.cpp:5494-5499 | The walk along siblings finds the other node if and only if it does not come earlier |
| Preorder.OrderIsPreorder | pugixml/pugixml.cpp:5475-5500 | Two nodes compare as their places in the preorder list of the document, which holds each node once |
| Preorder.PreMembers | pugixml/pugixml.cpp:7088-7114 | The preorder list of a subtree holds exactly its nodes |
| AxisSets.DescendantsAre | pugixml/pugixml.cpp:7088-7114 | The descendant list is in document order and holds exactly the nodes below |
| AxisSets.AncestorsAre | pugixml/pugixml.cpp:7199-7215 | The ancestor list is in reverse document order and holds exactly the proper prefixes |
| AxisSets.AfterAre | pugixml/pugixml.cpp:7132-7158 | The following list is in document order and holds exactly the nodes after the subtree |
| AxisSets.BeforeAre | pugixml/pugixml.cpp:7160-7197 | The preceding list is in reverse document order and holds exactly the nodes before that are no ancestors |
| AxisSets.AxesPartition | pugixml/pugixml.cpp:7066-7234 | Every node of the document is on exactly one of self, ancestor, descendant, following and preceding (section 2.2 of XPath 1.0), and nothing else is on any |
| Axes.NodeIsAncestor | pugixml/pugixml.cpp:5502-5507 | Whether a node is the other or one of its ancestors |
| Axes.FillDescendant | pugixml/pugixml.cpp:7088-7114 | The pointer walk pushes the descendant list, and terminates |
| Axes.FillFollowing | pugixml/pugixml.cpp:7132-7158 | The pointer walk pushes the following list |
| Axes.FillFollowingAttr | pugixml/pugixml.cpp:7269-7291 | From an attribute, the walk pushes the descendants of its element and what follows it |
| Axes.FillPreceding | pugixml/pugixml.cpp:7160-7197 | The backward walk pushes the preceding list, ancestors left out |
| Axes.FillAncestor | pugixml/pugixml.cpp:7199-7215 | The climb pushes the ancestors |
| Axes.FillFollowingSibling | pugixml/pugixml.cpp:7116-7122 | The walk pushes the later siblings |
| Axes.FillPrecedingSibling | pugixml/pugixml.cpp:7124-7130 | The backward walk pushes the earlier siblings, nearest first |
| Axes.FillAttribute | pugixml/pugixml.cpp:7072-7078 | The attributes that pass the test are pushed in order, namespace declarations left out |
| Axes.StepFillNode | pugixml/pugixml.cpp:7066-7234 | For every axis and node test, what is pushed for a node is the selected list |
| Axes.StepFillAttr | pugixml/pugixml.cpp:7236-7310 | For every axis and node test, what is pushed for an attribute as context is the selected list |
| AxisLaws.AxisMembers | pugixml/pugixml.cpp:6986-7310 | For every axis, node test and context, a node or attribute is delivered if and only if it stands in that relation to the context and its kind and name pass the test (sections 2.2 and 2.3 of XPath 1.0) |
| DocOrder.CompareOrder | pugixml/pugixml.cpp:5532-5585 | The slow path decides document order (section 5 of XPath 1.0), attributes after their element and before its children; asked about an attribute and itself it answers yes |
| DocOrder.DocOrderStrict | pugixml/pugixml.cpp:5532-5585 | Document order is a strict total order |
| DocOrder.KeyIdentifies | pugixml/pugixml.cpp:5532-5585 | No two nodes of a document have the same place |
| DocOrder.AttributePlaces | pugixml/pugixml.cpp:5543-5583 | Attributes come after their element, in their own order, and before everything below or after it |
| DocOrder.AxisOrder | pugixml/pugixml.cpp:7312-7318 | Every axis delivers its nodes, each once, in document order, or in reverse for ancestor, ancestor-or-self, preceding and preceding-sibling |
| NodeSet.XpathSort | pugixml/pugixml.cpp:6145-6159 | A set without repeats is put in document order or reversed, as its tag requires, although the comparator answers yes for an attribute and itself |
| NodeSet.ArrangedTruthful | pugixml/pugixml.cpp:6145-6159 | Sorting keeps the set and makes its tag true |
| NodeSet.MergedTruthful | pugixml/pugixml.cpp:6275-6281 | Whatever list is tagged unsorted, sorting by address and merging leaves a set with the same nodes |
| NodeSet.First | pugixml/pugixml.cpp:6161-6179 | The first node of a true set comes first in the document, for every tag |
| XPath.ApplyPredicate | pugixml/pugixml.cpp:6950-6974 | The in-place filter keeps what satisfies the predicate at its position and leaves what was there before untouched |
| XPath.ApplyPredicates | pugixml/pugixml.cpp:6976-6984 | All predicates of a step, one after the other, on what the step just added |
| XPath.StepMethod | pugixml/pugixml.cpp:7312-7358 | The loop over context nodes computes the specified step, tag included |
| XPathLaws.FilterIs | pugixml/pugixml.cpp:6950-6974 | A predicate keeps the nodes at the positions it accepts, in order and no others: a number where it is the position, any other value where it is true |
| XPathLaws.NumberPredicates | pugixml/pugixml.cpp:6950-6974 | [n] keeps the n-th node or none, [last()] the last, [position()] all |
| XPathLaws.StepNth | pugixml/pugixml.cpp:7312-7358 | With [n] a step selects the n-th node of its axis, counted forwards or backwards in the document as the axis runs |
| XPathLaws.PredicateLast | pugixml/pugixml.cpp:6976-6984 | Predicates apply in the order written |
| XPathLaws.StepSelects | pugixml/pugixml.cpp:7312-7358 | A step without predicates gives exactly the nodes that some context node selects by axis and node test |
| XPathLaws.StepFromMany | pugixml/pugixml.cpp:7989-8014 | ... when the context nodes are those of another expression |
| XPathLaws.Everywhere | pugixml/pugixml.cpp:7989-8014 | The path //node() gives every node of the document and no attribute |
| XPathLaws.FilterSelects | pugixml/pugixml.cpp:7958-7969 | A filter keeps what its predicate accepts of the set in document order |
| XPathLaws.FilterNth | pugixml/pugixml.cpp:7958-7969 | (e)[n] is the n-th node of the set in document order, whatever order it was in |
| XPathLaws.UnionSelects | pugixml/pugixml.cpp:7940-7956 | A union holds the nodes of both operands and no others |
| XPathLaws.EvalTyped | pugixml/pugixml.cpp:7936-8057 | A value has the type of its expression |
| XPathLaws.SameOperands | pugixml/pugixml.cpp:7553-7880 | Operators and functions depend on their operands through the values these have in the same context |
| XPathSets.FilterTruthful | pugixml/pugixml.cpp:7958-7969 | Filtering keeps the truth of a tag |
| XPathSets.StepTruthful | pugixml/pugixml.cpp:7312-7358 | A step over a true set gives a true set, through several contexts, predicates and removal of duplicates |
| XPathSets.UnionTruthful | pugixml/pugixml.cpp:7940-7956 | A union holds the nodes of both sets, each once |
| XPathSets.EvalTruthful | pugixml/pugixml.cpp:7936-8057 | Every node-set value of every expression holds no node twice and has a true tag, if variables do |
| Posinv.NodeSetFree | pugixml/pugixml.cpp:8059-8088 | A node-set expression depends on the context node alone |
| Posinv.PosinvFree | pugixml/pugixml.cpp:8059-8088 | If is_posinv holds, the value does not depend on the context position |
| Posinv.PosinvExactly | pugixml/pugixml.cpp:8059-8088 | is_posinv says no if and only if position() is called in the context of the expression itself, outside steps and filters |
| Posinv.FilterThenSort | pugixml/pugixml.cpp:7958-7969 | For a predicate that is no number and does not ask for the position, filtering and then sorting is sorting and then filtering |
| Posinv.SkippingTheSort | pugixml/pugixml.cpp:8487-8497 | The filter the parser builds selects exactly the nodes it would with a sort first, and in document order the same sequence |
| Pages.Conservation | pugixml/pugixml.cpp:269-315 | On every page live and freed bytes add up to the bytes handed out |
| Pages.FreedAll | pugixml/pugixml.cpp:282-293 | The freed bytes reach the bytes handed out exactly when no block is live |
| Pages.LiveDisjoint | pugixml/pugixml.cpp:269-398 | Live blocks lie within their pages and never overlap |
| Pages.AllocatedGood | pugixml/pugixml.cpp:269-398 | Allocation keeps every invariant of the page list, if the first request is small |
| Pages.AllocatedLive | pugixml/pugixml.cpp:269-398 | Allocation adds exactly one live block, at the address returned, and leaves the others alone |
| Pages.FreedGood | pugixml/pugixml.cpp:282-315 | Deallocation keeps every invariant: a page other than the last leaves the list exactly when its last live block dies |
| Pages.FreedLive | pugixml/pugixml.cpp:282-315 | Deallocation removes exactly the block given and leaves the others alone |
| Pages.StringWritten | pugixml/pugixml.cpp:317-341 | Offset and size fit the 16-bit header fields, or the string has a page to itself |
| Allocator.Allocator.constructor | pugixml/pugixml.cpp:4516-4535 | The page inside the document is full and holds the document |
| Allocator.Allocator.AllocateMemory | pugixml/pugixml.cpp:269-280 | A new block from the last page or out of band, at the address specified |
| Allocator.Allocator.AllocateMemoryOob | pugixml/pugixml.cpp:362-398 | A small request gets a new last page, a large one a page of its own before the last; the list stays doubly linked |
| Allocator.Allocator.DeallocateMemory | pugixml/pugixml.cpp:282-315 | A page without live blocks is reset if it is the last and unlinked otherwise; the list stays doubly linked |
| Allocator.Allocator.AllocateString | pugixml/pugixml.cpp:317-341 | The string is charged its rounded size and its header describes it |
| Allocator.Allocator.DeallocateString | pugixml/pugixml.cpp:343-356 | Page and size are recovered from the header alone and are those charged: exactly that block dies |
| ChildList.NodeStruct.AppendNode | pugixml/pugixml.cpp:521-545 | append_node puts the child last; the links stay half-cyclic, for every list length |
| ChildList.NodeStruct.PrependChild | pugixml/pugixml.cpp:3917-3939 | The child is put first; the links stay half-cyclic, for every list length |
| ChildList.NodeStruct.InsertChildBefore | pugixml/pugixml.cpp:3944-3966 | The child is put before a child of this node; for any other node nothing happens; the links stay half-cyclic, for every list length |
| ChildList.NodeStruct.InsertChildAfter | pugixml/pugixml.cpp:3968-3990 | The child is put after a child of this node; for any other node nothing happens; the links stay half-cyclic, for every list length |
| ChildList.NodeStruct.RemoveChild | pugixml/pugixml.cpp:4096-4109 | The child is taken out; for any other node nothing happens; the links stay half-cyclic, for every list length |
| Links.ChildLinks | pugixml/pugixml.cpp:3735-3743 | In memory the first and the last child of any node of the document, the last found through the half circle, are those of its tree |
| Links.NextLinks | pugixml/pugixml.cpp:3665-3671 | The parent and the next sibling of any node in memory are those of its tree |
| Links.PrevLinks | pugixml/pugixml.cpp:3683-3689 | The previous sibling found through the circular links is that of the tree; the first child is the one whose circular link ends nowhere |
| DeepCopy.Store.CopySkip | pugixml/pugixml.cpp:3035-3086 | The destination becomes a copy of the source as it was, although the new node may stand inside the source: every node below it is new and has a record of its own; only the destination changes |
| DeepCopy.Allowed | pugixml/pugixml.cpp:3026-3033 | A document takes every kind of node but a document, an element takes elements, text, comments and instructions, and nothing else takes children |
| DeepCopy.Store.InsertCopy | pugixml/pugixml.cpp:4028-4062 | A deep copy becomes a child of any node, even of the source itself or of one of its descendants; it equals the source before the call, each of its nodes is new, and nothing but the child list of its parent changes |
| DeepCopy.Store.AppendCopy | pugixml/pugixml.cpp:4028-4035 | A deep copy equal to the source before the call, made of new nodes, goes behind all children, and nothing else changes |
| DeepCopy.Store.PrependCopy | pugixml/pugixml.cpp:4037-4044 | A deep copy equal to the source before the call, made of new nodes, goes before all children, and nothing else changes |
| DeepCopy.Store.InsertCopyBeside | pugixml/pugixml.cpp:4046-4062 | A deep copy equal to the source before the call, made of new nodes, goes before or after an existing child, and is refused for any other node |
| DeepCopy.NumberedShows | pugixml/pugixml.cpp:3035-3086 | Nodes numbered in document order from the first new one are the content they number |
| DeepCopy.PlainIdentity | pugixml/pugixml.cpp:3035-3086 | The copy equals the original if and only if every node has only what its kind can have |

## Left out

- DOCTYPE: skipping it is not modelled; the parser model reports `DoctypeNotModelled` there. The code's
  comment scan inside DOCTYPE advances four bytes behind a three-byte terminator
  (`pugixml/pugixml.cpp:1926-1932`). The grammar has no DOCTYPE either.
- Comments, processing instructions and declarations as tree nodes, and all parse options but the default
  ones; the attribute and text conversions are modelled in every mode.
- The tree built before a parse error: on an error the model returns status and offset only. Nodes are linked
  to their parent when they are closed, not when they are opened.
- Text that runs into the end of the buffer (`pugixml/pugixml.cpp:1669-1672` returns without closing the
  gap): only the exit at a tag is specified.
- Encoding detection, wide characters, files and streams, byte order marks, Latin-1 and exhausted memory.
- 32-bit overflow in `atoi`; responses, peer lists and time stamps in messages; the iteration order of maps,
  which is arbitrary in the model.
- Sockets, threads and timers: the results of connecting and sending are arbitrary functions of the attempt
  number, and each message is one step. The eligibility of a peer is computed over real numbers, and the
  status of a result is a boolean, not its text.
- Task.Task.HandleTaskRequestResponse: requires that a refused parameter is in the try map, because the code
  erases the position `find` returned without comparing it with the end; in an exclusive state this holds for
  every node that is waiting. A message must come from a node this task asked.
- Task.Task.HandleTaskExecuteResponse: requires a node this task asked; any other has no parameter.
- Task.Task.Start: requires a parameter, because the code reads the first element of the open list without
  looking whether there is one.
- Numbers, strings and booleans in XPath: their operators, functions and conversions belong to an
  interpretation that is the same for both sides of every theorem. Parsing of expressions, `id()` beyond its
  empty result, the namespace axis, and queries without a context node.
- The fast path of document order by buffer address, and order between documents.
- XPath.StepMethod: the recursive evaluation is a function on values; only the loops of a step and of a
  predicate are modelled as methods, on sequences and not on the growing array of the original.
- Axes and document order work on paths from the document in place of pointers; `Links` shows that the
  pointers kept by `ChildList` lead where the paths do.
- Tree.NodeIsBefore: takes two nodes of one document; nodes of different documents are ordered by address.
- Allocator.Allocator.AllocateMemory: requires the first request to be small and the address given to be
  outside all pages; the contents of blocks other than string headers, alignment inside pages, and a pointer
  size other than eight are not modelled.
- DeepCopy.Store.CopySkip: children are sequences of node numbers, with the links left to `ChildList`;
  strings are copied by value.
- Node types a document cannot hold, and the shallow getters and iterators of the tree interface.
