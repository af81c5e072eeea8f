# Verified models of the Qeo core

Dafny models of the parts of the repository where correctness is hardest to see, and
proofs of what those parts promise. The models keep the branches, limits and constants
of the code. `dafny verify dfyconfig.toml` checks the whole project.

* **HTTP** (`HttpHeaderScan`, `HttpHeaderFields`, `HttpChunked`, `HttpServer`,
  `HttpResponse`): the client of miniupnpc reads a response from receives of any size. It is
  proved to refine a byte-by-byte reader for every split, and to invert the chunked encoder of
  the bundled server.
* **XML** (`Xml`, `XmlDocument`, `CallFold`): the cursor parser, proved to make exactly
  the calls of any printed tree; and its consumers `NameValue`, `IgdDescription`,
  `PortListing`, with the SOAP writer `Soap`.
* **IDL tables** (`IdlTypes`, `Tsm`, `TsmWriter`, `TsmMembers`): the writer of type-support tables, a reader
  that uses only codes and counts, and the exact conditions under which a table shows its type.
* **Request/response** (`ReqResp`): consumer and listener threads as interleaved steps.
* **Queues** (`Links`, `TailQueue`, `ListQueue`, `CircleQueue`): the pointer macros on real
  objects, refining plain sequences.
* **Lengths and replies** (`CodeLength`, `SsdpReply`), **gateway selection** (`ValidIgd`),
  the **hunter game** (`Hunter`) and the **bandwidth tester** (`Bandwidth`).
* `Text`, `Sequences` and `Options` hold what several models share.

Conventions: text protocols use `char` for a byte, and `CodeLength` uses numbers below 256.
Reading past the end of a buffer yields NUL. A loop of the source is a method proved equal to
a specification function, and the theorems are about that function. Received
fragments, network answers, write results and random numbers are parameters or left open.
Callbacks of the XML parser are a list of events that the consumers fold over.

Where code and documentation differ, the model follows the code:

* The header scan steps over a byte after a lone CR or LF, so whether the blank line is found
  depends on the line end and the CRs before it.
* A Content-Length without a value takes a number from what follows it.
* A receive that goes on with a chunk extension at a hexadecimal digit changes the chunk size.
* The SOAP writer, the description parser and the HTTP server write past their buffers for long
  texts; the models say exactly when.
* Of a size line only the first 31 digits count, leading zeros included.
* With chunking, a positive Content-Length still ends the content, at the end of a receive.
* Header names and port-listing names are compared by prefix.
* A service of a device description is kept only if its tags have no prefix and its end tag no
  white space.
* An empty-element tag has no end call, so as a last child it is listed like a leaf, and it
  leaves the nesting level of a device description one higher.
* The reply loop of the SSDP client keeps a margin of two bytes, which can cost the last record.

## Model

| member | source | states |
|---|---|---|
| `HttpHeaderScan.FindHeaderEnd` | qeo-c-import/miniupnpc/miniwget.c:104-126 | The scanning loop returns the position that `Scan` defines. |
| `HttpHeaderScan.ScanPrefix` | qeo-c-import/miniupnpc/miniwget.c:104-126 | For any bytes, scanning the part received so far finds the same end as scanning everything, as soon as that end has been received, and nothing before; so the split into receives does not matter. |
| `HttpHeaderScan.CarryOver` | qeo-c-import/miniupnpc/miniwget.c:172-174 | When a receive completes the header, the body bytes carried over are fewer than that receive. |
| `HttpHeaderScan.HeaderEndFound` | qeo-c-import/miniupnpc/miniwget.c:104-126 | For any lines with any mix of CRLF and LF endings and any CRs in them, the end is found just past the blank line if and only if the blank line ends like the last line, or with LF where an odd run of CRs, counted from where the scan enters the line, makes it step over the CR of a CRLF. |
| `HttpHeaderScan.ScanText` | qeo-c-import/miniupnpc/miniwget.c:107-126 | From any index of a text the scan comes to its line end, one byte further exactly after an odd run of CRs. |
| `HttpHeaderScan.StrayCrHidesBlankLine` | qeo-c-import/miniupnpc/miniwget.c:107-126 | Concrete inputs: one stray CR before the line end hides the blank line, two do not. |
| `HttpHeaderFields.ReadHeaders` | qeo-c-import/miniupnpc/miniwget.c:129-171 | The line-by-line loop computes the framing that `ParseHeaders` defines, for any bytes. |
| `HttpHeaderFields.SameNoCaseIsPrefix` | qeo-c-import/miniupnpc/miniwget.c:149-157 | The comparison limited to the length of the received name accepts exactly the names that start the known name, in any case of letters. |
| `HttpHeaderFields.HeaderBlockFound` | qeo-c-import/miniupnpc/miniwget.c:104-126 | The end of any written CRLF header block is found at its length, whatever body follows. |
| `HttpHeaderFields.HeaderBlockRead` | qeo-c-import/miniupnpc/miniwget.c:129-171 | Any written block of header lines is read as `ReadBlock` says, where a Content-Length without a value takes the number after it; that is what the lines mean if and only if the last Content-Length has a value or no other number than 0 follows it. |
| `HttpHeaderFields.ReadBlockMeans` | qeo-c-import/miniupnpc/miniwget.c:149-163 | The framing read and the framing meant agree on chunking always, and on the length exactly when it is kept; a length that is not kept was meant as 0. |
| `HttpHeaderFields.EmptyLengthReadsBody` | qeo-c-import/miniupnpc/miniwget.c:149-151 | In any block that ends in a Content-Length without a value, the length is the number the body received with it starts with. |
| `HttpHeaderFields.AtoiOfDec` | qeo-c-import/miniupnpc/miniwget.c:149-151 | The number read from the decimal form of any number, followed by anything but a digit, is that number, with a plus sign too, and its negative after a minus sign. |
| `HttpHeaderFields.AtoiSkips` | qeo-c-import/miniupnpc/miniwget.c:149-151 | White space before a number does not matter. |
| `HttpHeaderFields.LengthMeant` | qeo-c-import/miniupnpc/miniwget.c:149-151 | Whatever lines come before and after, the last Content-Length of a block, written in decimal, is the length meant and it is kept. |
| `HttpChunked.ParseSize` | qeo-c-import/miniupnpc/miniwget.c:204-211 | The size is the hexadecimal value of the digits collected, modulo 2^32. |
| `HttpChunked.ReadDigits` | qeo-c-import/miniupnpc/miniwget.c:193-199 | The digits read are the longest run of hexadecimal digits there is room for. |
| `HttpChunked.UpperHexValue` | qeo-c-import/miniupnpc/miniwget.c:204-211 | The case of the hexadecimal digits does not matter for their value. |
| `HttpChunked.DiscardExtension` | qeo-c-import/miniupnpc/miniwget.c:200-201 | Bytes are dropped up to the next CR or LF. |
| `HttpChunked.ReadSizeLine` | qeo-c-import/miniupnpc/miniwget.c:188-203 | A size line continues the digits kept from an earlier receive. |
| `HttpChunked.TakeTurn` | qeo-c-import/miniupnpc/miniwget.c:183-246 | One turn of the chunk loop is the step `OneTurn` of the decoder. |
| `HttpChunked.FeedReceive` | qeo-c-import/miniupnpc/miniwget.c:180-246 | The loop over one receive is `Feed`, and ends. |
| `HttpChunked.FeedFollows` | qeo-c-import/miniupnpc/miniwget.c:180-246 | From any state, one receive keeps the decoder in step with a byte-by-byte reader of section 4.1 of RFC 7230, extensions included, for size lines of at most 31 digits and sizes below 2^31, unless it goes on with an extension at a hexadecimal digit. |
| `HttpChunked.FeedAllFollows` | qeo-c-import/miniupnpc/miniwget.c:180-246 | The same over every split in which no receive goes on with an extension at a hexadecimal digit: within those sizes the streaming decoder refines the byte-by-byte reader. |
| `HttpChunked.SplitExtension` | qeo-c-import/miniupnpc/miniwget.c:188-218 | For an extension in any number of later receives, the size is the value of the digits and all the runs of hexadecimal digits those receives start with, modulo 2^32, and decoding goes on with that. |
| `HttpChunked.SplitExtensionExact` | qeo-c-import/miniupnpc/miniwget.c:193-211 | The size read is the size sent if and only if that is below 2^32 and the digits taken add a multiple of 2^32 to it; below 2^32, if and only if no digit was taken from a receive, or both are 0. |
| `HttpChunked.NoDigitTaken` | qeo-c-import/miniupnpc/miniwget.c:193-199 | No digit is taken if and only if no receive starts with a hexadecimal digit or the digits already fill their array. |
| `HttpChunked.ResumeIff` | qeo-c-import/miniupnpc/miniwget.c:188-201 | A receive inside an extension keeps the decoder in step if and only if it does not start with a hexadecimal digit there is room for. |
| `HttpChunked.SafeWithoutExtension` | qeo-c-import/miniupnpc/miniwget.c:180-246 | Without extensions every split is safe. |
| `HttpChunked.SizeLineRead` | qeo-c-import/miniupnpc/miniwget.c:188-231 | For a size line of any number of digits, some of which may have come in earlier receives, the size is the value of the first 31 modulo 2^32, and an overrun from 2^31 on. |
| `HttpChunked.SizeLineExact` | qeo-c-import/miniupnpc/miniwget.c:193-231 | At the end of a size line the decoder has the size that was sent if and only if that is 0, or has at most 31 digits, leading zeros included, and is below 2^31. |
| `HttpChunked.ZerosHideSize` | qeo-c-import/miniupnpc/miniwget.c:193-229 | After 31 zeros any size is taken for that of the last chunk. |
| `HttpServer.HexRoundTrip` | qeo-c-import/miniupnpc/minihttptestserver.c:124-126 | The size written in hexadecimal reads back as the same number, in hexadecimal digits only. |
| `HttpServer.AppendChunks` | qeo-c-import/miniupnpc/minihttptestserver.c:117-136 | The loop writes the chunked coding of the chunks drawn. |
| `HttpServer.DrawnChunks` | qeo-c-import/miniupnpc/minihttptestserver.c:117-132 | Whatever is drawn, the chunks are pieces of 1 to 199 bytes that join to the content. |
| `HttpServer.DrawnSize` | qeo-c-import/miniupnpc/minihttptestserver.c:119-122 | Every chunk but the last has the size drawn for it. |
| `HttpServer.BuildChunkedResponse` | qeo-c-import/miniupnpc/minihttptestserver.c:97-142 | The response is the header and a chunked coding of the content if and only if that fits the allocated buffer; otherwise memory past it is written. |
| `HttpServer.ShortContentFits` | qeo-c-import/miniupnpc/minihttptestserver.c:103-136 | Up to 36 bytes of content the response fits whatever is drawn. |
| `HttpServer.OneByteDrawsOverrun` | qeo-c-import/miniupnpc/minihttptestserver.c:103-136 | From 37 bytes on it does not fit when every draw is the least. |
| `HttpServer.EncodeRoundTrip` | qeo-c-import/miniupnpc/minihttptestserver.c:117-136 | The reader of section 4.1 of RFC 7230 reads any chunked coding back as the joined chunks, whatever follows it, and comes to no extension. |
| `HttpResponse.GetHttpResponse` | qeo-c-import/miniupnpc/miniwget.c:66-288 | The whole receive loop returns what the step function `Respond` defines. |
| `HttpResponse.HeadThenBody` | qeo-c-import/miniupnpc/miniwget.c:90-178 | For any bytes and any split, the loop behaves as if the header were read first and the body after it, in parts that join to the rest. |
| `HttpResponse.ChunkedResponse` | qeo-c-import/miniupnpc/miniwget.c:90-277 | For every header block, every body the reader accepts and every split that does not resume an extension at a hexadecimal digit, the content returned is the chunk data up to the end of the first part after which it reaches a positive Content-Length, or all. It is all if and only if those parts already have all, and so for every split if no Content-Length is positive and below the amount of data. |
| `HttpResponse.ChunkedRoundTrip` | qeo-c-import/miniupnpc/miniwget.c:90-277 | For every content, every choice of chunks and every split into receives, the content returned is the content encoded, unless a positive Content-Length is below its length; then it is a first part of it, at least that long. |
| `HttpResponse.LengthCutsShort` | qeo-c-import/miniupnpc/miniwget.c:270-277 | For every chunked body with more data than a positive Content-Length, some split into receives gives only the data up to that length, although section 3.3.3 of RFC 7230 lets the chunked coding win. |
| `HttpResponse.PlainResponse` | qeo-c-import/miniupnpc/miniwget.c:248-277 | Without chunking and for every header block and split, the result is the body cut to the length read; it is what the header lines mean (section 3.3.3 of RFC 7230) if and only if the length is kept or the number read instead cuts nothing off. |
| `HttpResponse.LengthDelivered` | qeo-c-import/miniupnpc/miniwget.c:248-277 | A Content-Length written in decimal as a positive number n, the last of its block, without chunking: the result is the first n bytes of the body, or all that came, for every split. |
| `HttpResponse.FramingMeant` | qeo-c-import/miniupnpc/miniwget.c:129-176 | The framing read is the framing meant if and only if the length is kept, given the body bytes received with the end of the header. |
| `HttpResponse.ServerRoundTrip` | qeo-c-import/miniupnpc/miniwget.c:66-288 | What the bundled HTTP server sends for a content, received in any split, is read as that content. |
| `Xml.Parse` | qeo-c-import/miniupnpc/minixml.c:110-206 | On any buffer, with bytes past the end taken as NUL, the event slices are inside the buffer and in order. |
| `Xml.Parser.ParseAttName` | qeo-c-import/miniupnpc/minixml.c:52-64 | The loops find the end of an attribute name and pass the equals sign, or report the end of the buffer. |
| `Xml.Parser.ParseAttValue` | qeo-c-import/miniupnpc/minixml.c:65-97 | The loops give the value slice `AttValue` defines, quoted or not. |
| `Xml.Parser.ParseAtt` | qeo-c-import/miniupnpc/minixml.c:39-106 | The attribute loop fires the events of `Atts` and stops where that stops. |
| `Xml.Parser.ParseName` | qeo-c-import/miniupnpc/minixml.c:118-132 | The name slice is the part after the last colon. |
| `Xml.Parser.ParseCData` | qeo-c-import/miniupnpc/minixml.c:151-171 | A CDATA section fires the event of `CDataTurn` and moves to the next tag. |
| `Xml.Parser.ParseContent` | qeo-c-import/miniupnpc/minixml.c:139-183 | What follows a start tag fires the events of `ContentTurn`. |
| `Xml.Parser.ParseEndTag` | qeo-c-import/miniupnpc/minixml.c:185-199 | An end tag fires the event of `EndTurn`. |
| `Xml.Parser.ParseTurn` | qeo-c-import/miniupnpc/minixml.c:116-204 | One turn of the loop is `OneTurn`. |
| `Xml.Parser.ParseElt` | qeo-c-import/miniupnpc/minixml.c:110-206 | The cursor loop fires exactly the events of `Parse` and ends, by bytes left. |
| `Xml.Parser.ParseXml` | qeo-c-import/miniupnpc/minixml.c:209-214 | A parse starts at the first byte. |
| `XmlDocument.AttsParsed` | qeo-c-import/miniupnpc/minixml.c:39-106 | Any list of written attributes gives one call each, in order. |
| `XmlDocument.NodeParsed` | qeo-c-import/miniupnpc/minixml.c:110-206 | For every tree of elements with prefixes, quoted attributes, text, CDATA and empty-element tags, written anywhere in a buffer, the parser makes exactly the pre-order calls of the tree and goes on after it. |
| `XmlDocument.KidsParsed` | qeo-c-import/miniupnpc/minixml.c:110-206 | The same for any list of children with text between them. |
| `XmlDocument.DocumentParsed` | qeo-c-import/miniupnpc/minixml.c:110-214 | Parsing any written document, with what may come before and after the root, makes exactly the calls of its root (sections 2.7 and 3.1 of XML 1.0). |
| `NameValue.ParserData.StartElt` | qeo-c-import/miniupnpc/upnpreplyparse.c:15-26 | The handler takes the old state to `Handle` of it, the step that parsing folds: the element becomes the current one. |
| `NameValue.ParserData.EndElt` | qeo-c-import/miniupnpc/upnpreplyparse.c:28-61 | Likewise for an end: one entry for a leaf, none for a parent, and a port listing kept apart. |
| `NameValue.ParserData.GetData` | qeo-c-import/miniupnpc/upnpreplyparse.c:63-86 | Likewise for data: remembered as a value, or as the port listing. |
| `NameValue.ParserData.ParseNameValue` | qeo-c-import/miniupnpc/upnpreplyparse.c:88-105 | Parsing is the fold of the handlers over the calls of the parser. |
| `NameValue.ParserData.RunCallbacks` | qeo-c-import/miniupnpc/upnpreplyparse.c:15-86 | Running the handlers over a list of events is the fold of `Handle`. |
| `NameValue.ParserData.GetValueFromNameValueList` | qeo-c-import/miniupnpc/upnpreplyparse.c:124-138 | The value of the first entry of that name, if there is one. |
| `NameValue.NodeListed` | qeo-c-import/miniupnpc/upnpreplyparse.c:15-86 | Reading any element puts its leaves in front of the list, last one first, whatever was there. |
| `NameValue.DocumentListed` | qeo-c-import/miniupnpc/upnpreplyparse.c:15-105 | After any written document the list is its leaves in reverse order, and the port listing is the last one with data. |
| `NameValue.LookupIsLast` | qeo-c-import/miniupnpc/upnpreplyparse.c:124-138 | Lookup in the reversed list gives the last leaf of that name in the document. |
| `NameValue.ExactlyTheLeaves` | qeo-c-import/miniupnpc/upnpreplyparse.c:28-61 | The list holds exactly the leaf elements if and only if no element ends in an empty-element tag; otherwise there is one more entry for each that does. |
| `Soap.WriteArg` | qeo-c-import/miniupnpc/miniupnpc.c:170-187 | One argument is written as an element with its value, or nothing for a missing value. |
| `Soap.WriteBody` | qeo-c-import/miniupnpc/miniupnpc.c:132-196 | The writer does what `Write` says: it gives up where an argument starts with less than the margin left, writes past the buffer where a text copied does not fit, and otherwise leaves a text that is ended or not. |
| `Soap.BodyComplete` | qeo-c-import/miniupnpc/miniupnpc.c:132-196 | It leaves the complete body, ended by NUL, if and only if no argument starts too late and the body is shorter than the buffer. |
| `Soap.LongValueOverruns` | qeo-c-import/miniupnpc/miniupnpc.c:168-187 | A value as long as the buffer is written past its end although the check for its argument passed. |
| `Soap.ShortBodyWritten` | qeo-c-import/miniupnpc/miniupnpc.c:132-196 | A body of at most 1947 bytes is always left complete. |
| `Soap.LateArgumentGivesUp` | qeo-c-import/miniupnpc/miniupnpc.c:161-168 | With 1948 bytes or more before the first argument the writer gives up. |
| `Soap.BodyIsDocument` | qeo-c-import/miniupnpc/miniupnpc.c:152-194 | The body is the printed form of an envelope tree. |
| `Soap.EnvelopeLeaves` | qeo-c-import/miniupnpc/miniupnpc.c:152-194 | The leaves of that tree are the arguments in order, or the action alone. |
| `Soap.RequestRoundTrip` | qeo-c-import/miniupnpc/miniupnpc.c:132-196 | For every request whose body is complete in that sense, parsing what the writer left and looking up a name gives the value of the last argument of that name, cut to 127 characters; without arguments the action is the only leaf. |
| `Soap.BodyRoundTrip` | qeo-c-import/miniupnpc/miniupnpc.c:147-196 | The same of the body itself, of any length. |
| `Soap.EachArg` | qeo-c-import/miniupnpc/miniupnpc.c:168-187 | With distinct names every argument comes back. |
| `IgdDescription.IgdData.StartElt` | qeo-c-import/miniupnpc/igd_desc_parse.c:15-27 | The handler takes the old memory to `HandleIn` of it, the step that parsing folds: a service starts from an empty record, and a name of more than 127 characters overruns the array for it. |
| `IgdDescription.IgdData.EndElt` | qeo-c-import/miniupnpc/igd_desc_parse.c:32-63 | Likewise for an end: a complete service is kept by its type. |
| `IgdDescription.IgdData.GotData` | qeo-c-import/miniupnpc/igd_desc_parse.c:67-94 | Likewise for data: the field of the current element, cut to its array. |
| `IgdDescription.IgdData.RunCallbacks` | qeo-c-import/miniupnpc/igd_desc_parse.c:15-94 | Running the handlers over a list of events is the fold of `HandleIn`. |
| `IgdDescription.IgdData.ParseRootDesc` | qeo-c-import/miniupnpc/miniupnpc.c:98-113 | Parsing a description is that fold over the events of the parser. |
| `IgdDescription.NodeReadIn` | qeo-c-import/miniupnpc/igd_desc_parse.c:15-94 | Reading any element changes intact data by exactly the services, URLs and level it contributes if all its names fit, and overruns it if not. |
| `IgdDescription.FoldIn` | qeo-c-import/miniupnpc/igd_desc_parse.c:15-27 | Over any calls the memory stays intact exactly as long as no long name is opened, and then holds what the handlers compute. |
| `IgdDescription.KeptServices` | qeo-c-import/miniupnpc/igd_desc_parse.c:32-62 | From any list of services, `first` is the first connection service, `second` the last of the later ones, and CIF and the IPv6 firewall the last of their type. |
| `IgdDescription.ServicesOwn` | qeo-c-import/miniupnpc/igd_desc_parse.c:15-62 | The record of a service never depends on what was read before that service. |
| `IgdDescription.RecordFields` | qeo-c-import/miniupnpc/igd_desc_parse.c:67-94 | For every element, each of the four fields of the record has the text of the last non-empty leaf literally named after it since the start of the service. |
| `IgdDescription.ServiceFields` | qeo-c-import/miniupnpc/igd_desc_parse.c:67-94 | For a service written with leaves, the service type and the control, event and description URLs are the texts of the last non-empty leaves serviceType, controlURL, eventSubURL and SCPDURL, cut to 127 characters, and empty without one. |
| `IgdDescription.EndsServiceIff` | qeo-c-import/miniupnpc/igd_desc_parse.c:32-37 | The end of an element completes a service if and only if the element is named service, without a prefix, and its end tag is there and has no white space. |
| `IgdDescription.DescriptionParsed` | qeo-c-import/miniupnpc/igd_desc_parse.c:15-94 | For any written description, if every element name has at most 127 characters, the kept services are those of the document in that sense, the URLs are the last ones given, and the level ends at the number of empty-element tags; and the data is overrun if and only if some name is longer. |
| `IgdDescription.LongNameOverruns` | qeo-c-import/miniupnpc/igd_desc_parse.c:18-19 | A document of one element with a longer name overruns the data. |
| `PortListing.ParseInteger` | qeo-c-import/miniupnpc/portlistingparse.c:30-44 | The digit loop computes `Atoui`, wrapping at 64 bits. |
| `PortListing.ParserData.StartElt` | qeo-c-import/miniupnpc/portlistingparse.c:47-68 | The new state of the start handler, with a cleared record in front for each entry. |
| `PortListing.ParserData.EndElt` | qeo-c-import/miniupnpc/portlistingparse.c:70-77 | The end handler forgets the element. |
| `PortListing.ParserData.GotData` | qeo-c-import/miniupnpc/portlistingparse.c:80-127 | The data handler fills the field of the current element in the first record. |
| `PortListing.ParserData.RunCallbacks` | qeo-c-import/miniupnpc/portlistingparse.c:47-127 | Running the handlers over a list of events is the fold of `Handle`. |
| `PortListing.ParserData.ParsePortListing` | qeo-c-import/miniupnpc/portlistingparse.c:130-147 | Parsing is that fold from an empty list. |
| `PortListing.NodeRead` | qeo-c-import/miniupnpc/portlistingparse.c:47-127 | Reading any element changes the list as `Listed` says, from any state. |
| `PortListing.NameRecognized` | qeo-c-import/miniupnpc/portlistingparse.c:47-68 | Each known name is recognized as itself although names are compared by prefix. |
| `PortListing.DecRoundTrip` | qeo-c-import/miniupnpc/portlistingparse.c:30-44 | A number below 2^64 survives printing in decimal and reading. |
| `PortListing.ListingRoundTrip` | qeo-c-import/miniupnpc/portlistingparse.c:30-147 | Printing any list of mappings and parsing it gives the same records in reverse order, with texts cut to their arrays. |
| `Tsm.DecodeType` | dds/apps/idl/tsmdump.c:307-387 | The entries of any showable type decode to the view of that type, whatever follows. |
| `Tsm.TableShows` | dds/apps/idl/tsmdump.c:446-485 | The table of any struct of showable members decodes to its type tree, from codes and counts alone and with nothing left over. Every struct and member shows as key and dynamic exactly if nesting leads to a key or to unbounded data, and members and union members show the offset of their own field. |
| `Tsm.TableReadable` | dds/apps/idl/tsmdump.c:221-485 | With one label per union member, a table can be decoded if and only if all its members are showable: aliases end in types without parts and no union member is a reference. |
| `Tsm.TableReadableLabels` | dds/apps/idl/tsmdump.c:281-305 | When no alias hides parts, a table can be decoded if and only if besides that every union member has one label. |
| `Tsm.TableDetermines` | dds/apps/idl/tsmdump.c:446-485 | Two structs with the same table, one of them showable, are both showable and have the same name, the same flags and the same views of their members, flags and offsets included. |
| `Tsm.MiscountsCancel` | dds/apps/idl/tsmdump.c:281-305 | A sequence alias and a union member with two labels: the table can be read to its end and shows another type. |
| `Tsm.DecodeBalanced` | dds/apps/idl/tsmdump.c:221-270 | Whatever the reader accepts uses up exactly as many entries as the counts in them ask for. |
| `TsmWriter.Writer.DumpConsts` | dds/apps/idl/tsmdump.c:346-357 | The entries and commas of the constants of an enumeration. |
| `TsmWriter.Writer.DumpUnionMember` | dds/apps/idl/tsmdump.c:281-305 | One entry with its parts for every label of a union member. |
| `TsmWriter.Writer.DumpCases` | dds/apps/idl/tsmdump.c:358-369 | The entries of all the members of a union, with commas between them if each has one label. |
| `TsmWriter.Writer.DumpCollectionType` | dds/apps/idl/tsmdump.c:307-320 | The entry of an element type and its parts. |
| `TsmWriter.Writer.DumpDimensions` | dds/apps/idl/tsmdump.c:373-376 | One entry for every dimension after the first. |
| `TsmWriter.Writer.DumpArrayParts` | dds/apps/idl/tsmdump.c:370-378 | The dimensions and then the element. |
| `TsmWriter.Writer.DumpTypePost` | dds/apps/idl/tsmdump.c:322-387 | The parts of a type, each after a comma. |
| `TsmWriter.Writer.DumpMember` | dds/apps/idl/tsmdump.c:420-444 | The entry of a member and its parts. |
| `TsmWriter.Writer.DumpMembers` | dds/apps/idl/tsmdump.c:479-483 | The entries of all members in order. |
| `TsmWriter.Writer.DumpStructType` | dds/apps/idl/tsmdump.c:446-485 | What is written is exactly `Table`, with one comma between entries when unions have one label per member. |
| `IdlTypes.DynamicFlag` | dds/apps/idl/tsmdump.c:391-418 | The dynamic flag is set if and only if struct nesting reaches an unbounded string or sequence. |
| `IdlTypes.KeyFlag` | dds/apps/idl/typeobj_manip.c:487-508 | The key flag is set if and only if unregistered structs lead to a key member. |
| `IdlTypes.MemberFlags` | dds/apps/idl/tsmdump.c:420-434 | The same of the flags of a single member. |
| `TsmMembers.MemberDeclared` | dds/apps/idl/typeobj_manip.c:333-361 | Every declarator gives one member with its name, the key flag of the first annotation of the declaration, and the type, as an array of all its sizes if it has some. |
| `TsmMembers.MemberListFromDeclarators` | dds/apps/idl/typeobj_manip.c:333-361 | The list of one declaration is its declarators last first, all with the annotation of the first. |
| `TsmMembers.CollectMembers` | dds/apps/idl/idlparser.y:618-641 | Joining each new declaration in front gives all members last first. |
| `TsmMembers.StructSetMembers` | dds/apps/idl/typeobj_manip.c:72-95 | Filling the array from its end reverses the list. |
| `TsmMembers.BuildMembers` | dds/apps/idl/typeobj_manip.c:72-95 | The struct has its members in declaration order. |
| `ReqResp.ClearSlots` | dds/apps/reqresp/reqresp.c:489-495 | The loop zeroes exactly the slots with the answered id and lowers the count by their number. |
| `ReqResp.StepInv` | dds/apps/reqresp/reqresp.c:425-508 | Every step of either thread keeps the invariant of the protocol. |
| `ReqResp.RunInv` | dds/apps/reqresp/reqresp.c:425-508 | Every run keeps it. |
| `ReqResp.ReachableInv` | dds/apps/reqresp/reqresp.c:425-508 | Every reachable state satisfies it. |
| `ReqResp.NoLostWakeUp` | dds/apps/reqresp/reqresp.c:357-364 | Whenever the consumer is blocked and any response to the current batch is queued, some listener call has still to signal. |
| `ReqResp.AsleepMeansUnanswered` | dds/apps/reqresp/reqresp.c:475-481 | If the consumer is blocked and no signal is due, a request of the batch is open and no response to any open request has ever arrived. |
| `ReqResp.BatchBarrier` | dds/apps/reqresp/reqresp.c:445-505 | The count equals the non-zero slots, and a batch begins, or the run ends, only when every earlier id has been answered. |
| `ReqResp.AllAnswered` | dds/apps/reqresp/reqresp.c:445-506 | A run with any number of batches never sends more requests than they have; it is finished only when all of them were sent and every one is answered. |
| `ReqResp.StaleResponse` | dds/apps/reqresp/reqresp.c:483-503 | A duplicate or stale response changes neither the count nor the place of the consumer. |
| `ReqResp.Progress` | dds/apps/reqresp/reqresp.c:425-508 | Every step but an arrival and a spurious wake-up lowers a rank. |
| `ReqResp.QuietRunEnds` | dds/apps/reqresp/reqresp.c:425-508 | A run without arrivals and spurious wake-ups is at most as long as the rank. |
| `ReqResp.CanFinish` | dds/apps/reqresp/reqresp.c:425-508 | A finished state is reachable, so the invariant and the barrier are about real runs. |
| `ReqResp.StuckOnlyUnanswered` | dds/apps/reqresp/reqresp.c:425-508 | The system stands still only when the consumer is finished or waits for a request no response to which has arrived. |
| `TailQueue.TailQueue.constructor` | qeo-c-import/miniupnpc/bsdqueue.h:352-355 | An empty well-linked queue. |
| `TailQueue.TailQueue.InsertHead` | qeo-c-import/miniupnpc/bsdqueue.h:357-365 | The entry is put first. Next, back and last pointers stay well formed. |
| `TailQueue.TailQueue.InsertTail` | qeo-c-import/miniupnpc/bsdqueue.h:367-372 | The entry is put last. Next, back and last pointers stay well formed. |
| `TailQueue.TailQueue.InsertAfter` | qeo-c-import/miniupnpc/bsdqueue.h:374-382 | The entry is put behind the given one. Next, back and last pointers stay well formed. |
| `TailQueue.TailQueue.InsertBefore` | qeo-c-import/miniupnpc/bsdqueue.h:384-389 | The entry is put in front of the given one. Next, back and last pointers stay well formed. |
| `TailQueue.TailQueue.Remove` | qeo-c-import/miniupnpc/bsdqueue.h:391-400 | Exactly that entry is gone. Next, back and last pointers stay well formed. |
| `TailQueue.TailQueue.Replace` | qeo-c-import/miniupnpc/bsdqueue.h:402-412 | That position holds the new entry. Next, back and last pointers stay well formed. |
| `TailQueue.TailQueue.Last` | qeo-c-import/miniupnpc/bsdqueue.h:331-332 | The last entry, or null. |
| `TailQueue.TailQueue.Prev` | qeo-c-import/miniupnpc/bsdqueue.h:334-335 | The entry before, or null. |
| `TailQueue.TailQueue.Traverse` | qeo-c-import/miniupnpc/bsdqueue.h:339-342 | Going forward visits exactly the entries. |
| `TailQueue.TailQueue.TraverseReverse` | qeo-c-import/miniupnpc/bsdqueue.h:344-347 | Going back visits them in reverse. |
| `Links.Inserted` | qeo-c-import/miniupnpc/bsdqueue.h:374-382 | For all three kinds of queue: changing the pointers before and after a position to a new link links up the sequence with that link put in. |
| `Links.Unlinked` | qeo-c-import/miniupnpc/bsdqueue.h:391-400 | For all three kinds: pointing past a link links up the sequence without it. |
| `Links.Replaced` | qeo-c-import/miniupnpc/bsdqueue.h:402-412 | For all three kinds: the sequence with the link exchanged. |
| `ListQueue.ListQueue.constructor` | qeo-c-import/miniupnpc/bsdqueue.h:201-203 | An empty list. |
| `ListQueue.ListQueue.InsertAfter` | qeo-c-import/miniupnpc/bsdqueue.h:205-211 | The entry is put behind the given one. Pointers stay well formed. |
| `ListQueue.ListQueue.InsertBefore` | qeo-c-import/miniupnpc/bsdqueue.h:213-218 | The entry is put in front of the given one. Pointers stay well formed. |
| `ListQueue.ListQueue.InsertHead` | qeo-c-import/miniupnpc/bsdqueue.h:220-225 | The entry is put first. Pointers stay well formed. |
| `ListQueue.ListQueue.Remove` | qeo-c-import/miniupnpc/bsdqueue.h:227-234 | Exactly that entry is gone. Pointers stay well formed. |
| `ListQueue.ListQueue.Replace` | qeo-c-import/miniupnpc/bsdqueue.h:236-244 | That position holds the new entry. Pointers stay well formed. |
| `ListQueue.ListQueue.Traverse` | qeo-c-import/miniupnpc/bsdqueue.h:193-196 | Going forward visits exactly the entries. |
| `CircleQueue.CircleQueue.constructor` | qeo-c-import/miniupnpc/bsdqueue.h:456-459 | An empty ring. |
| `CircleQueue.CircleQueue.InsertAfter` | qeo-c-import/miniupnpc/bsdqueue.h:461-469 | The entry is put behind the given one. The ring stays closed in both directions. |
| `CircleQueue.CircleQueue.InsertBefore` | qeo-c-import/miniupnpc/bsdqueue.h:471-479 | The entry is put in front of the given one. The ring stays closed in both directions. |
| `CircleQueue.CircleQueue.InsertHead` | qeo-c-import/miniupnpc/bsdqueue.h:481-489 | The entry is put first. The ring stays closed in both directions. |
| `CircleQueue.CircleQueue.InsertTail` | qeo-c-import/miniupnpc/bsdqueue.h:491-499 | The entry is put last. The ring stays closed in both directions. |
| `CircleQueue.CircleQueue.Remove` | qeo-c-import/miniupnpc/bsdqueue.h:501-514 | Exactly that entry is gone. The ring stays closed in both directions. |
| `CircleQueue.CircleQueue.Traverse` | qeo-c-import/miniupnpc/bsdqueue.h:443-446 | Going forward visits exactly the entries. |
| `CircleQueue.CircleQueue.TraverseReverse` | qeo-c-import/miniupnpc/bsdqueue.h:448-451 | Going back visits them in reverse. |
| `CodeLength.WriteCode` | qeo-c-import/miniupnpc/codelength.h:24-28 | For any 32-bit length the five tests write its base-128 groups without leading zeros, marked as the code asks. |
| `CodeLength.ReadCode` | qeo-c-import/miniupnpc/codelength.h:13-15 | On any input the 32-bit accumulator loses no bit: the value is the unbounded one and below 2^32. |
| `CodeLength.ReadCodeBelow` | qeo-c-import/miniupnpc/codelength.h:17-22 | The same with a limit, which the position never passes. |
| `CodeLength.CodeRead` | qeo-c-import/miniupnpc/codelength.h:13-28 | The code of any 32-bit length, followed by anything, is read as that length and ends at its end. |
| `CodeLength.BelowAgrees` | qeo-c-import/miniupnpc/codelength.h:13-22 | A code that ends by the limit is read the same way with and without it. |
| `CodeLength.CodeReadBelow` | qeo-c-import/miniupnpc/codelength.h:17-28 | The round trip with a limit. |
| `SsdpReply.ReadReply` | qeo-c-import/miniupnpc/minissdpc.c:100-129 | The record loop computes `Devices` on any buffer. |
| `SsdpReply.FrameRead` | qeo-c-import/miniupnpc/minissdpc.c:102-129 | One framed record is listed if its type ends before the margin, and nothing more is listed otherwise. |
| `SsdpReply.ReplyRead` | qeo-c-import/miniupnpc/minissdpc.c:100-129 | A reply for any records that fits the buffer is read as the (URL, type) pairs in reverse order if and only if the last type ends before the margin; otherwise just the last record is missing. |
| `SsdpReply.ListedAt` | qeo-c-import/miniupnpc/minissdpc.c:113-122 | The list is reversed: record `i` from the front is device `i` from the back. |
| `ValidIgd.FindGateways` | qeo-c-import/miniupnpc/miniupnpc.c:911-937 | A device is marked as a gateway if and only if its description can be fetched and names the interface service, unless a description overruns the data, which is reported if and only if one does. |
| `ValidIgd.TryDevice` | qeo-c-import/miniupnpc/miniupnpc.c:943-987 | One device at one degree: found exactly when it meets the degree, with its data, and with URLs built only if found. |
| `ValidIgd.GetValidIgd` | qeo-c-import/miniupnpc/miniupnpc.c:878-1001 | The result is undefined if and only if a description overruns the data. Otherwise it is the best degree any device meets, with data and URLs of the earliest such device and the answering service first; exactly one set of URLs is left if it is positive and none otherwise. |
| `ValidIgd.BestUnique` | qeo-c-import/miniupnpc/miniupnpc.c:938-990 | That promise determines the device. |
| `ValidIgd.GatewayDescription` | qeo-c-import/miniupnpc/miniupnpc.c:929-935 | A written description overruns the data if and only if an element name has more than 127 characters; otherwise it makes a device a gateway if and only if the document has a service of the interface type. |
| `Hunter.Player.Go` | dds/apps/hunter/mainHunter.c:541-559 | A step of each coordinate between the walls. |
| `Hunter.Step` | dds/apps/hunter/mainHunter.c:541-559 | A step from inside the walls ends inside them: by the speed if that stays inside, and otherwise at the wall with the speed turned round. |
| `Hunter.Player.Chase` | dds/apps/hunter/mainHunter.c:569-579 | Afterwards the hunter heads for the rabbit in each direction, at the same pace. |
| `Hunter.Player.Flee` | dds/apps/hunter/mainHunter.c:598-607 | Afterwards the rabbit heads away from the hunter in each direction, at the same pace. |
| `Hunter.Player.Suffer` | dds/apps/hunter/mainHunter.c:519-532 | A shot rabbit with power left has lost that power, is slowed down by it in its old direction, and is somewhere in the field. |
| `Hunter.Game.Add` | dds/apps/hunter/mainHunter.c:162-209 | Refused if and only if the list has that colour in any case of letters; otherwise a new player, somewhere in the field and with the speed and power of its kind, is first in the list. |
| `Hunter.Game.Delete` | dds/apps/hunter/mainHunter.c:920-944 | Exactly that rabbit leaves the list. |
| `Hunter.Game.Shoot` | dds/apps/hunter/mainHunter.c:508-533 | The power drops by that of the hunter, the rabbit leaves the list exactly when none is left, and is otherwise slowed down and put elsewhere. |
| `Hunter.Game.Watch` | dds/apps/hunter/mainHunter.c:564-580 | A rabbit is chased exactly if it is in sight. |
| `Hunter.Game.Confront` | dds/apps/hunter/mainHunter.c:562-588 | One turn of the loop over the rabbits, with the successor saved before a rabbit may be deleted. |
| `Hunter.Game.Hunt` | dds/apps/hunter/mainHunter.c:561-589 | The hunter has turned to the rabbits in sight one after the other; each rabbit is shot exactly if it was in range and otherwise as it was; those with power left stay, in the same order. |
| `Hunter.Game.HuntThrough` | dds/apps/hunter/mainHunter.c:562-588 | The loop deals with every rabbit of the list the hunter found. |
| `Hunter.Game.Escape` | dds/apps/hunter/mainHunter.c:592-609 | The speeds after the loop are those of the hunters in sight turning the rabbit one after the other. |
| `Hunter.Game.Dodge` | dds/apps/hunter/mainHunter.c:593-608 | One hunter: turned away from exactly if it is in sight. |
| `Hunter.FledAway` | dds/apps/hunter/mainHunter.c:592-609 | The rabbit ends up heading away, to the left or right, from the last hunter in sight that is to one side of it. |
| `Hunter.FledAwayY` | dds/apps/hunter/mainHunter.c:592-609 | The same upwards and downwards. |
| `Hunter.ChasedToward` | dds/apps/hunter/mainHunter.c:564-580 | The hunter ends up heading for, to the left or right, the last rabbit in sight that is to one side of it. |
| `Hunter.ChasedTowardY` | dds/apps/hunter/mainHunter.c:564-580 | The same upwards and downwards. |
| `Hunter.Game.AddYoung` | dds/apps/hunter/mainHunter.c:1458-1460 | A young rabbit gets the first colour from Red to White no rabbit has; there is none if and only if no colour is left. |
| `Hunter.Game.Mate` | dds/apps/hunter/mainHunter.c:1453-1463 | Same gender or no colour left changes nothing; otherwise a rabbit with the first free colour is born, and rabbits are only added in front. The call returns, by the free colours. |
| `Hunter.Game.MeetRabbits` | dds/apps/hunter/mainHunter.c:610-622 | A rabbit with the first free colour is born if and only if a colour is left and another rabbit of the other gender is close; otherwise the rabbits stay the same. The call ends, although each birth moves the young and may make it mate. |
| `Hunter.Game.Move` | dds/apps/hunter/mainHunter.c:535-624 | A move always returns, keeps the game valid and the player in its list, and takes it one step. From there a hunter has hunted, with the powers, places and survivors of `Hunt`; a rabbit has fled from the hunters as in `Escape` and mated as in `MeetRabbits`. |
| `Hunter.Game.Publish` | dds/apps/hunter/mainHunter.c:675-686 | One sample is written and counted against the steps. |
| `Hunter.Game.Timeout` | dds/apps/hunter/mainHunter.c:626-692 | Nothing happens while aborting or paused; otherwise the player has moved as `Move` promises, the last sample is its own, and the samples of a call count down the steps exactly and pause the game at zero. |
| `Hunter.Game.Activate` | dds/apps/hunter/mainHunter.c:746-801 | An activated player moves once under the same promises. |
| `Hunter.BirthsBounded` | dds/apps/hunter/mainHunter.c:1453-1463 | No call brings more young than there were colours left. |
| `Hunter.Game.Enter` | dds/apps/hunter/mainHunter.c:1352-1355 | Adding and activating a player keeps the game valid, and unless the colour is taken or the game stands still its sample is the last. |
| `Hunter.Game.Enlist` | dds/apps/hunter/mainHunter.c:294 | Adding a player that waits keeps the game valid and writes no sample; there is one player more unless the colour is taken. |
| `Hunter.Game.Awaken` | dds/apps/hunter/mainHunter.c:1524-1530 | Activating any listed player moves it as `Move` promises, unless the game stands still, and keeps the game valid. |
| `Hunter.Game.Fire` | dds/apps/hunter/mainHunter.c:626-692 | The timer of any listed player moves it as `Move` promises, unless the game stands still, and keeps the game valid. |
| `Hunter.Game.Run` | dds/apps/hunter/mainHunter.c:626-692 | In every run, with players added and activated together or at different times, colours are distinct, powers are in range, speeds are not zero, and players and all samples ever written are inside the field. |
| `Bandwidth.WriteData` | dds/apps/bw/main.c:560-580 | The samples written are numbered 0, 1, ... without gaps, however many writes time out. |
| `Bandwidth.Reader.TakeSample` | dds/apps/bw/main.c:730-757 | The totals, the account of the second and the reports after one sample. |
| `Bandwidth.Reader.ReadData` | dds/apps/bw/main.c:729-759 | The ledger after one take is the fold over its samples with data, in the second it was in. |
| `Bandwidth.InOrder` | dds/apps/bw/main.c:729-759 | For samples in order, received plus missed is the next expected counter, missed is the number of undelivered ones below it and the sum of the reports, and none is incorrect. |
| `Bandwidth.TotalsOf` | dds/apps/bw/main.c:729-759 | The totals after any takes in any seconds are those of the samples in one list. |
| `Bandwidth.AddsUpAll` | dds/apps/bw/main.c:736-755 | While the seconds are kept, the accounts of the seconds add up to the totals, however the samples in order are divided into takes. |
| `Bandwidth.SecondsSay` | dds/apps/bw/main.c:736-755 | Every second that is kept has exactly the samples received in it and those found missing in it. |
| `Bandwidth.LossAccounted` | dds/apps/bw/main.c:729-759 | Over a whole run with any timeouts, any losses, any division into takes and any seconds the totals are accurate, and while the seconds are kept they add up to the totals. |
| `Bandwidth.IncorrectIff` | dds/apps/bw/main.c:746-753 | A sample is reported incorrect if and only if the samples did not come in strictly increasing order. |

## Left out

- Sockets, polling, address lookup, timers, threads as such, and all DDS calls: what they deliver is a parameter.
- `parseURL`, `url_cpy_or_cat` and `GetUPNPUrls`: URLs are represented by what they are built from; they would only add easy members.
- Allocation failures, and the fatal exits of the programs.
- `atoi` in the header fields is not bounded to 32 bits.
- HttpChunked.FeedFollows: size lines of more than 31 digits and sizes of 2^31 and more are excluded, because the code does not read them as sent; `SizeLineExact` gives the exact condition, and the model marks a size that is negative as a signed number as undefined.
- HttpChunked.FeedAllFollows: the same sizes are excluded, for the same reason.
- What lies in memory past the bytes received: a number that ends there is taken to end, and past an overrun buffer nothing is promised.
- `build_content`, `build_crap` and `send_response` of the HTTP server.
- XmlDocument.NodeParsed: unquoted attribute values, and comments and processing instructions inside elements, are not part of the printed trees; `Xml.Parse` covers them on any buffer.
- Soap.RequestRoundTrip: names are limited to 63 characters and values have no markup, as the reader has no escapes.
- `ClearNameValueList`, `FreePortListing` and other clean-up; list nodes of the parsers are sequence elements.
- Printing numbers and elements for `PortListing.ListingRoundTrip` is part of the model, since the repository only reads port listings.
- Tsm.TableReadableLabels: tables with both several labels for a union member and aliases that hide parts are not characterized, because the two miscounts can cancel, as `MiscountsCancel` shows.
- Default members of unions (the writer exits on them), maps and annotations in tables, and the C, IDL and sample printers.
- `TsmMembers` represents member lists by sequences, so sharing of list nodes in `typeobj_manip.c` is not captured.
- `register_alias_types_from_declarator_list`, and the endpoint index of `dds/apps/dump/main.c`.
- ReqResp.NoLostWakeUp: takes one listener call per arriving sample, and ids that were requested, as given; ids are not bounded to 32 bits. The provider side is not modelled.
- `CIRCLEQ_REPLACE`, which uses its argument in another way than the other macros, and the SIMPLEQ macros.
- SsdpReply.ReadReply: pointers do not wrap, and a length code that runs past the buffer reads zeros.
- `UPNP_GetIGDFromUrl` and the contents of the answers a service gives.
- Hunter.Game.Run: remote players, drawing, and colours longer than the colour array are not modelled.
- Bandwidth.LossAccounted: for runs of fewer than 2^32 samples, since the counters wrap there. How the current second is computed is a parameter.
