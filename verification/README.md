# Verified models of the picture-bed server

This project models, in Dafny, the parts of the server whose correctness does not show in a single function, and
proves what they promise.

* **Protocol parsers.** The HTTP request parser is modelled twice: as a machine that takes one byte at a time
  (`HttpMachine`), and as the code that takes a buffer at a time, with its mark pointers and callbacks
  (`HttpParser`). The second is proved to be the first however the input is cut. On the machine, `HttpSafety` shows
  that no assertion fails, `HttpHeaders` and `HttpMethods` what is recognised, `HttpBodies` what bodies deliver,
  `HttpTargets` which targets and versions are accepted, `HttpLines` what header lines do, `HttpNumbers` what the
  overflow test lets pass, `HttpRequests` that requests written one after the other are delivered exactly and when
  the connection stays open, and `HttpCallbacks` in what order callbacks come for any input at all.
  The Redis reply reader has the same two levels (`RespProtocol`, `RespReader`), and `RespFormat` connects it with the
  command formatter.
* **Printers and parsers.** `Json*` covers the JSON values, the reader with its cursor and comments, the escapes and
  their UTF-8, the compact and the styled writer with its layout, and the round trips between them; `SdsQuote` and
  `SdsWords` the quoting of Redis strings; `Decimal` the 64-bit conversions.
* **Data structures and protocols.** `HashTable` is the chained table with its entries linked in place, its rehashing
  and its iterator; `AsyncRedis` the callback queue with its shutdown paths; `AsyncLogging` the double-buffered
  logger, proved to be a simple queue with a file behind it; `ConnPool` the bounded pools; `FileRefs` the reference
  counts across the request handlers.
* **Calendar.** `Calendar` proves the day number formulas against a calendar that counts days one by one.

Bytes are characters and byte strings are `string`s. Concurrent code is a state machine whose atomic steps are the
locked regions; the run methods (`RunSchedule`, `RunEvents`, `ServeAll`, `Live`) then cover every order of steps. Callbacks of
the asynchronous client are arbitrary scripts of what they may do to their context. Inputs from outside (time,
allocator slack, failing statements, failing connections) are parameters.

Some findings, each stated by members below with its exact condition and an input: the HTTP overflow test misreads some
lengths and chunk sizes of 2^64 and more (`HttpHeaders.OverflowTest`, `HttpBodies.SizeOverflowTest`); the word of
M-SEARCH is "M-- SEARCH" as the preprocessor spells it (`HttpMethods.MethodRecognition`); the reply reader misses line
ends in buffers above 2^31 bytes (`RespReader.SoughtExactly`); number tokens without digits or with leading zeros are
JSON integers (`JsonGrammar.IntegersBeyondRfc`); behind a comment any token passes for the comma between JSON members
(`JsonComments.CommentBehindMember`), and a comma in front of the closing brace passes behind a member without a name
(`JsonSyntax.TrailingComma`); HTTP/2.0 requests close the connection (`HttpRequests.VersionTwoCloses`), and a folded
Content-Length counts only its last line (`HttpLines.RunFoldedLength`); a string that ends in a backslash cannot be
written in single quotes (`SdsWords.SingleQuotesExactly`); the log loses nothing below 52 million bytes between two
batches, and may above (`AsyncLogging.SharpBound`); a failed insert in the save handler, a delete of a file the user does
not have, and sharing an unknown picture each break the reference counts, and the delete can lose a file that another
user has (`FileRefs.Tables.DeleteFile`).

## Model

| member | source | states |
|---|---|---|
| HttpMachine.RunSplit | base/http_parser.cc:605-2098 | Running a text cut in two is running the halves one after the other, whatever the bytes and the state. |
| HttpMachine.RunPieces | base/http_parser.cc:605-2098 | The same for any number of pieces. |
| HttpMachine.LogJoin | base/http_parser.cc:88-119 | Two adjacent data callbacks of one kind count as one with the joined bytes. |
| HttpSafety.StepSafe | base/http_parser.cc:605-2098 | One byte keeps the invariant of every state (positions inside the literal being matched, Content-Length neither 0 nor 2^64-1 in body states, header state fitting the state) and fails no assertion. |
| HttpSafety.RunSafe | base/http_parser.cc:605-2098 | So does every run from a safe state. |
| HttpSafety.NeverAborts | base/http_parser.cc:605-2098 | No assertion of the parser fails from its initial state, for any input. |
| HttpHeaders.FieldByteTracks | base/http_parser.cc:1416-1524 | After every name byte the match state says exactly which known names the lower-cased name so far can still become. |
| HttpHeaders.HeaderRecognition | base/http_parser.cc:1350-1540 | At the colon that ends a name of any length, in the first header line or any later one, each of connection (or proxy-connection), content-length, transfer-encoding and upgrade is singled out if and only if the lower-cased name is that word. |
| HttpHeaders.ValueRecognition | base/http_parser.cc:1551-1776 | An unfolded value, empty or not and with either line end, sets exactly the flags it should: chunked for a Transfer-Encoding "chunked", keep-alive and close for those words of a Connection, in any case and followed by spaces only, and upgrade for any Upgrade value but the empty one. |
| HttpNumbers.AccumulatePasses | base/http_parser.cc:1658-1686 | The overflow test lets the step from u to v pass exactly when v modulo 2^64 is neither below u modulo 2^64 nor 2^64-1. |
| HttpHeaders.ContentLengthRead | base/http_parser.cc:1591-1686 | Any unfolded value is accepted if and only if it is digits with spaces among them, starting with a digit, and each digit passes that test; it is then read as the number of its digits modulo 2^64. Otherwise the length is an error. |
| HttpHeaders.ContentLengthExact | base/http_parser.cc:1591-1686 | Such a value is accepted with the exact number of its digits if and only if that is below 2^64-1. |
| HttpHeaders.OverflowTest | base/http_parser.cc:1658-1686 | A value v with v/10 below 2^64-1 is refused if and only if v modulo 2^64 is below v/10 or is 2^64-1, and misread as v modulo 2^64 otherwise. |
| HttpHeaders.OverflowTestIsOneSided | base/http_parser.cc:1658-1686 | A run of the parser over 30000000000000000000 is accepted as 11553255926290448384, and one over 20000000000000000000 is refused. |
| HttpMethods.MethodRecognition | base/http_parser.cc:935-1137 | A text without line breaks makes the parser stand behind method m if and only if it is exactly the word of m. |
| HttpMethods.OnlyItsWord | base/http_parser.cc:1003-1137 | No other text is taken for a method, through all the switches between method names that share a prefix. |
| HttpBodies.RunBody | base/http_parser.cc:1887-1922 | Body bytes are delivered in order, and the end of the length is noticed at the last one. |
| HttpBodies.RunSizeLine | base/http_parser.cc:1935-2022 | A chunk size below 2^64-1, in any spelling and with any extension, starts a chunk of that size with its line end, or the trailer when it is zero. |
| HttpBodies.SizeRead | base/http_parser.cc:1935-2004 | Any size, of hexadecimal digits and of bytes from 0x80 up that read as zero, is accepted if and only if each of its digits passes the overflow test, and then read modulo 2^64. |
| HttpBodies.SizeOverflowTest | base/http_parser.cc:1972-1994 | A size v with v/16 below 2^64-1 is refused if and only if v modulo 2^64 is below v/16 or is 2^64-1, and misread as v modulo 2^64 otherwise. |
| HttpBodies.SizeTestIsOneSided | base/http_parser.cc:1972-1994 | A run of the parser over the size 18000000000000000 reads it as 2^63, and one over 10000000000000000 is refused. |
| HttpBodies.RunChunk | base/http_parser.cc:1935-2065 | An encoded chunk delivers its data and returns to the next size, consuming exactly its bytes. |
| HttpBodies.RunChunks | base/http_parser.cc:1935-2065 | A list of chunks delivers the concatenation of their data. |
| HttpBodies.ChunkedBody | base/http_parser.cc:1778-2065 | A chunked body with its last chunk in any spelling delivers the concatenation, completes the message once, at its last byte, and leaves the parser ready with the two bytes of the trailer still counted. |
| HttpBodies.IdentityBody | base/http_parser.cc:1887-1934 | A body of Content-Length bytes is delivered whole and completes the message once, at its last byte. |
| HttpHeaders.TokenBytes | base/http_parser.cc:153-186 | The token table holds exactly the printing bytes that are no separators of RFC 2616, each with its lower-case letter. |
| HttpHeaders.NameEnds | base/http_parser.cc:1526-1549 | A name ends at a colon, or at a line end for a header without a value; any other byte that is no token byte is refused. |
| HttpHeaders.BeyondLimit | base/http_parser.cc:672-681 | A header byte beyond the limit is refused, whatever it is and whatever came before it. |
| HttpHeaders.EndlessValue | base/http_parser.cc:672-681 | So a value that does not end within 80 kilobytes of header is refused. |
| HttpBodies.SizeDigits | base/http_parser.cc:187-189 | The value of a size digit is its place among the hexadecimal digits of either case; bytes from 0x80 up count as zero. |
| HttpBodies.SizeRefused | base/http_parser.cc:1935-1949 | A size line that starts with no digit is refused. |
| HttpBodies.SizeEndRefused | base/http_parser.cc:1951-1971 | So is one whose digits anything but a carriage return, a semicolon or a blank follows. |
| HttpTargets.PathByte | base/http_parser.cc:526-600 | In path, query and fragment the URL goes on for exactly the byte codes 33 to 126; the first question mark of a path starts the query, a number sign the fragment. |
| HttpTargets.TargetExactly | base/http_parser.cc:435-600 | The URL states accept a text if and only if it is a target of the method: a path or an asterisk of printing bytes, letters, "://" and a server, or for CONNECT a server, where a server is the bytes of its grammar without two at signs in a row. |
| HttpTargets.RunTarget | base/http_parser.cc:1139-1215 | A text up to a blank or a line end is delivered as the URL if it is a target of the method, and refused as an invalid URL otherwise; a line that ends there has version 0.9. |
| HttpTargets.VersionExactly | base/http_parser.cc:1250-1348 | A text up to the line end is taken for a version if and only if it is two numbers of up to 999 with a dot between, the first without a leading zero, and then for those numbers. |
| HttpLines.RunHeader | base/http_parser.cc:1350-1776 | Any header line but a Content-Length is delivered as its name and its value, and sets exactly the flags its name and value call for. |
| HttpLines.RunHeaders | base/http_parser.cc:1350-1776 | A block of header lines is delivered in order, and sets the flags of its lines. |
| HttpLines.RunFold | base/http_parser.cc:1766-1776 | A line that starts with a blank continues the value before it, and sets no flag of that header. |
| HttpLines.RunFoldedLength | base/http_parser.cc:1766-1776 | A line that continues a Content-Length starts the number anew, so only its last line counts. |
| HttpLines.RunLength | base/http_parser.cc:1350-1764 | A Content-Length line is delivered likewise and sets the length it spells. |
| HttpRequests.RunContent | base/http_parser.cc:1350-2065 | The body behind a head is delivered whole, by length or in chunks with extensions and trailer fields, and completes the message at its last byte. |
| HttpRequests.HeadEndsByFeed | base/http_parser.cc:1358-1364 | A line feed alone ends a head as an empty line does. |
| HttpRequests.OnlyByteAccepted | base/http_parser.cc:1217-1348 | In the middle of the protocol name and of every line end only the one byte that is due is accepted. |
| HttpRequests.RunRequest | base/http_parser.cc:605-2098 | A written-out request of any method, target, version and headers, with no body, one announced by its length or one in chunks with trailer fields, is delivered part by part, byte for byte, consuming exactly its text; behind it the parser waits for the next request if the request keeps the connection open, has closed it otherwise, and has stopped for another protocol if the request asks for one. |
| HttpRequests.PersistsByDefault | base/http_parser.cc:2125-2147 | Without a Connection header the connection stays open if and only if the version is 1.1 or later and its minor number is not 0. |
| HttpRequests.VersionTwoCloses | base/http_parser.cc:2125-2147 | So a request of version 2.0 is treated as one of version 1.0. |
| HttpRequests.NothingMore | base/http_parser.cc:687-695 | Behind a request that closes the connection every byte but a line end is refused and not consumed. |
| HttpRequests.RunEmptyLines | base/http_parser.cc:935-940 | Empty lines in front of a request are skipped. |
| HttpRequests.RunMoreBlanks | base/http_parser.cc:1139-1229 | So are further blanks in front of the target and of the version. |
| HttpRequests.OtherProtocol | base/http_parser.cc:1217-1230 | A version that does not start with an H is refused. |
| HttpRequests.RunRequests | base/http_parser.cc:605-2098 | Requests that follow each other on a connection, of which only the last may close it, are delivered one after the other. |
| HttpRequests.ServeConnection | base/http_parser.cc:605-2098 | The code does the same however the bytes are cut: its joined callbacks are the events of the requests, and its state is the one behind the last of them. |
| HttpCallbacks.StepFollows | base/http_parser.cc:605-2098 | Whatever byte comes in whatever state, its callbacks continue a message where that state says it stands. |
| HttpCallbacks.CallbackOrder | base/http_parser.cc:605-2098 | For every input the callbacks come in order: begin, URL, header lines, end of the headers, body data, trailer lines, completion, and between messages the log is whole messages. |
| HttpCallbacks.BeginsAndCompletions | base/http_parser.cc:605-2098 | In a log in that order every begin but that of a message under way has its completion. |
| HttpCallbacks.ServeAnything | base/http_parser.cc:605-2098 | The code keeps that order for every input and every cut, as long as there is no error. |
| HttpParser.Parser.constructor | base/http_parser.cc:2153-2161 | A fresh request parser: the start state, everything else zero, no callbacks made. |
| HttpParser.Parser.ByteStart | base/http_parser.cc:935-1001 | Fields, error and joined callbacks after a byte in the start state are those of the byte machine. |
| HttpParser.Parser.ByteMethod | base/http_parser.cc:1003-1137 | The same for a byte of the method, by comparison with a literal and the switches between literals. |
| HttpParser.Parser.ByteUrl | base/http_parser.cc:1139-1215 | The same for URL bytes, which are marked instead of delivered. |
| HttpParser.Parser.ByteVersion | base/http_parser.cc:1217-1348 | The same for the version, whose numbers stay below 1000. |
| HttpParser.Parser.ByteFieldStart | base/http_parser.cc:1350-1402 | The same for the first byte of a header line, which may end the headers. |
| HttpParser.Parser.ByteField | base/http_parser.cc:1404-1549 | The same for header name bytes, which are marked. |
| HttpParser.Parser.ByteValueStart | base/http_parser.cc:1551-1629 | The same for the first byte of a value, which the header state interprets; an empty value is delivered as such. |
| HttpParser.Parser.ByteValue | base/http_parser.cc:1631-1740 | The same for value bytes, which are marked. |
| HttpParser.Parser.ByteAlmostDone | base/http_parser.cc:1742-1764 | The same for the end of a header line, which sets the connection and chunked flags. |
| HttpParser.Parser.ByteHeadersAlmostDone | base/http_parser.cc:1778-1885 | The same for the end of the headers, which chooses between a next message, a body by length and a chunked body. |
| HttpParser.Parser.ByteChunkHeader | base/http_parser.cc:1935-2022 | The same for chunk size lines. |
| HttpParser.Parser.TakeBody | base/http_parser.cc:1887-1922 | Body bytes taken a portion at a time do what the byte machine does one by one. |
| HttpParser.Parser.Execute | base/http_parser.cc:605-2098 | For every buffer the fields, the count of consumed bytes and the joined callbacks are those of the byte machine; no mark is left set; an empty buffer means the end of the input. |
| HttpParser.Parser.ExecutePieces | base/http_parser.cc:605-2098 | Split invariance of the code: any cut into non-empty pieces ends in the fields, error and total count of one call, and in its joined callbacks when there is no error. |
| RespReader.SeekNewline | redis/read.c:135-169 | Finds the first CR LF of the part its int length lets it see, for inputs of any length: all of it up to 2^31 bytes, nothing where the converted length is not positive. |
| RespReader.SoughtExactly | redis/read.c:135-169 | It finds what is there if and only if nothing is there or it lies before the converted length. |
| RespReader.MissedLineEnd | redis/read.c:135-169 | A line end at the very front of a buffer of 2^31+1 bytes is not found. |
| RespReader.SdsRange | redis/sds.c:797-834 | Keeps the inclusive range with negative indices counted from the end, in strings of any length, with the int conversions of the code. |
| RespReader.Reader.Feed | redis/read.c:617-651 | Adds bytes behind the unread ones and changes nothing else. |
| RespReader.Reader.MoveToNextTask | redis/read.c:282-311 | Closes exactly the arrays the item fills and stops at the first that is not full. |
| RespReader.Reader.ProcessLineItem | redis/read.c:313-363 | Reads a line item, fails, or leaves everything for later, as the abstract reader does. |
| RespReader.Reader.ProcessBulkItem | redis/read.c:365-438 | The same for bulk strings; the two bytes after the payload are skipped unseen. |
| RespReader.Reader.ProcessMultiBulkItem | redis/read.c:440-528 | The same for arrays; an array in the ninth slot is an error. |
| RespReader.Reader.ProcessItem | redis/read.c:530-584 | Resumes after the type byte when it was already read. |
| RespReader.Reader.GetReply | redis/read.c:653-705 | Delivers the next reply of the stream, nothing when more is needed, or the error, and discards the consumed prefix from 1024 bytes on. |
| RespReader.Reader.FeedPieces | redis/read.c:617-705 | Split invariance of the code: whatever the cuts and however long the stream, the replies and the final error are those of the whole stream, as long as each feed keeps the unread bytes and the at most 1023 bytes before them within 2^31-1. |
| RespProtocol.StepStable | redis/read.c:313-528 | A move that is possible stays the same move when more bytes follow. |
| RespProtocol.DrainSplit | redis/read.c:617-705 | Reading what is there and then the rest gives what reading everything at once gives. |
| RespProtocol.SplitInvariance | redis/read.c:617-705 | The same for any number of feeds from an empty reader. |
| RespProtocol.DrainEncoded | redis/read.c:282-528 | An encoded item in any open array reads as its tree, whatever follows. |
| RespProtocol.DrainTooDeep | redis/read.c:448-454 | A tree nested one array too deep is refused with the nesting error. |
| RespProtocol.DecodeExactlyToDepthEight | redis/read.c:282-528 | An encoded reply tree is read back whole if and only if its arrays are nested at most eight deep. |
| RespProtocol.DecodeEncoded | redis/read.c:653-705 | A sequence of encoded replies is read back exactly and entirely. |
| RespProtocol.NullArray | redis/read.c:474-488 | The null array reads as nil wherever an array may stand. |
| RespProtocol.ReadBulkEnding | redis/read.c:404-416 | The two bytes behind a bulk string are skipped, whatever they are. |
| RespProtocol.RefusedType | redis/read.c:540-560 | A type byte other than the five is refused. |
| RespProtocol.RefusedInteger | redis/read.c:322-334 | An integer that is no canonical spelling of a 64-bit number is refused. |
| RespProtocol.RefusedBulk | redis/read.c:381-393 | So is a bulk length that is none, and one below -1. |
| RespProtocol.RefusedArray | redis/read.c:448-472 | So is a count that is none, below -1 or above the range of int, and any array in the ninth slot. |
| RespFormat.BulkLen | redis/hiredis.c:224-227 | The predicted length of a bulk argument is its real length. |
| RespFormat.CommandLength | redis/hiredis.c:594-604 | The predicted length of a command is its real length. |
| RespFormat.FormatCommandArgv | redis/hiredis.c:585-624 | Writes exactly the predicted number of bytes, which are the encoded command, and a NUL. |
| RespFormat.CommandRoundTrip | redis/hiredis.c:585-624 | The reply reader decodes a formatted command to the array of exactly its arguments. |
| RespFormat.SendCommand | redis/hiredis.c:585-624 | The same through the code: the bytes that redisFormatCommandArgv writes, fed in any cut, come back as exactly that array. |
| Decimal.String2ll | redis/read.c:183-262 | Succeeds exactly on the canonical spellings of 64-bit signed integers, with their value. |
| Decimal.AccumulateDigits | redis/read.c:212-241 | The digit loop keeps every intermediate value within 64 unsigned bits. |
| Decimal.ParseLongLongCanonical | redis/read.c:171-262 | A text denotes n if and only if n is a 64-bit integer and the text its canonical spelling. |
| Decimal.SdsLl2str | redis/sds.c:483-516 | Writes the canonical spelling of every 64-bit integer but the least. |
| Decimal.Convert | log/log_stream.cc:41-58 | Writes the canonical spelling of every 64-bit integer, the least included. |
| Decimal.ReverseInPlace | redis/sds.c:504-515 | Reverses a prefix of the buffer and leaves the rest. |
| Decimal.ReadsWhatIsPrinted | redis/read.c:171-262 | The strict reader undoes both printers. |
| Decimal.CountDigits | redis/hiredis.c:205-221 | Counts the digits of the canonical numeral. |
| SdsQuote.CatRepr | redis/sds.c:973-1009 | Appends the quoted form of any byte string. |
| SdsQuote.SplitArgs | redis/sds.c:1087-1242 | Splits a line as the token grammar does, errors included. |
| SdsQuote.NextToken | redis/sds.c:1104-1222 | The inner loop reads one token with its quotes and escapes. |
| SdsQuote.QuotingRoundTrip | redis/sds.c:973-1242 | Quoting any byte strings, joining them with single spaces and splitting gives them back. |
| SdsQuote.LineHasNoNul | redis/sds.c:973-1009 | A quoted line has no NUL, whatever bytes were quoted, so it is a C string. |
| SdsQuote.QuoteAndSplit | redis/sds.c:973-1242 | The same round trip through the code: the words are appended by sdscatrepr and the line is split by sdssplitargs. |
| SdsWords.SplitWritten | redis/sds.c:1087-1242 | A line of words that are bare, in either kind of quotes, or bare with quotes behind, with any blanks around them, is split into their meanings. |
| SdsWords.SingleQuotesExactly | redis/sds.c:1169-1193 | A string written in single quotes is read back if and only if it does not end in a backslash. |
| SdsWords.HexPair | redis/sds.c:1112-1122 | A backslash, x and two hexadecimal digits of either case stand for their byte. |
| SdsWords.EscapedByte | redis/sds.c:1123-1150 | Any other byte behind a backslash that is no letter of an escape stands for itself. |
| SdsWords.BadQuotes | redis/sds.c:1151-1163 | A closing quote that something else follows is an error, and so is a missing one. |
| SdsWords.EscapesArePrintable | redis/sds.c:973-1009 | A quoted byte is written as itself if it is printable and neither quote nor backslash, by the letter of its escape if it has one, and in hexadecimal otherwise. |
| SdsWords.SplitLine | redis/sds.c:1087-1242 | The code splits such lines so. |
| JsonValue.LessByFirstDifference | jsoncpp/json_value.cpp:199-203 | Names are ordered as strcmp does: at their first difference one of them ends or has the smaller byte. |
| JsonValue.SetMemberSorted | jsoncpp/json_value.cpp:973-993 | Storing a member keeps the members in strcmp order and binds the name to that value only. |
| JsonValue.RetagKeepsNumbers | jsoncpp/json_reader.cpp:545-550 | The tags the reader gives change no number anywhere in a value, so the round trips lose nothing but the tag. |
| JsonGrammar.IntegersBeyondRfc | jsoncpp/json_reader.cpp:504-606 | A number document is read as an integer without being one for RFC 8259 if and only if it is in range and its digits are missing or start with a superfluous zero; an RFC 8259 integer is read as one if and only if it is in range; and the parse fails if and only if the number is no integer in range and sscanf reads no double. |
| JsonGrammar.LoneMinusIsZero | jsoncpp/json_reader.cpp:504-550 | One of them: a lone minus sign is a document that reads as zero. |
| JsonReader.Reader.ReadToken | jsoncpp/json_reader.cpp:235-304 | Recognises the next token, a comment or an error included, and where it lies. |
| JsonReader.Reader.TakeToken | jsoncpp/json_reader.cpp:241-303 | The switch on the first byte: kind and length of the token. |
| JsonReader.Reader.ReadComment | jsoncpp/json_reader.cpp:327-348 | Accepts a comment of either form to its exact end, and refuses anything else behind a slash. |
| JsonReader.Reader.SkipCommentTokens | jsoncpp/json_reader.cpp:218-226 | Finds the first token that is no comment, with its place. |
| JsonReader.Reader.ReadString | jsoncpp/json_reader.cpp:390-400 | Stops behind the first quote that no backslash hides, or fails. |
| JsonReader.Reader.DecodeNumber | jsoncpp/json_reader.cpp:504-606 | A number token is the integer it denotes if that fits 64 bits, otherwise a double, or an error when sscanf reads none. |
| JsonReader.Reader.Accumulate | jsoncpp/json_reader.cpp:518-544 | The comparison with a tenth of the limit gives up if and only if the number exceeds the limit, without overflow. |
| JsonReader.Reader.DecodeString | jsoncpp/json_reader.cpp:608-659 | Decodes all escapes or records an error. |
| JsonReader.Reader.DecodeUnicodeCodePoint | jsoncpp/json_reader.cpp:661-688 | Combines a high surrogate with the escape after it. |
| JsonReader.Reader.ReadArray | jsoncpp/json_reader.cpp:457-492 | Reads an array as the grammar does, and an error is recorded exactly when it fails. |
| JsonReader.Reader.ReadObject | jsoncpp/json_reader.cpp:402-455 | Reads an object as the grammar does, with its acceptance of a closing brace after an empty name and of any token for the comma behind comments. |
| JsonReader.Reader.ReadValue | jsoncpp/json_reader.cpp:145-216 | Reads a value as the grammar does. |
| JsonReader.Reader.RecoverFromError | jsoncpp/json_reader.cpp:728-739 | Skipping stops exactly behind the first closing token of the kind asked for, or the end, and adds no error. |
| JsonReader.Reader.Parse | jsoncpp/json_reader.cpp:104-143 | Succeeds exactly when the grammar reads a value at the start of the document, exactly when no error was recorded, and returns that value. |
| JsonComments.CommentToken | jsoncpp/json_reader.cpp:327-379 | A comment of either form is one token, whatever follows it. |
| JsonComments.CommentShape | jsoncpp/json_reader.cpp:327-379 | Nothing else is a comment token, but a line comment that the document ends. |
| JsonComments.GapIgnored | jsoncpp/json_reader.cpp:218-226 | The next token behind any mixture of white space and comments is the next token. |
| JsonComments.GapBetween | jsoncpp/json_reader.cpp:402-492 | White space and comments in front of a value, behind an array element and in front of a member name change nothing. |
| JsonComments.GapAroundDocument | jsoncpp/json_reader.cpp:104-143 | Nor do they in front of a document, and what is behind its value is ignored. |
| JsonComments.CommentBeforeColon | jsoncpp/json_reader.cpp:428-432 | A comment between a member name and its colon always fails the object. |
| JsonComments.CommentInEmptyArray | jsoncpp/json_reader.cpp:460-473 | A comment that opens an array without elements always fails it. |
| JsonComments.CommentBehindMember | jsoncpp/json_reader.cpp:440-452 | A comment behind a member is ignored if and only if a comma, a closing brace or another comment is next, or what follows the next token fails anyway, because that token is taken for the comma. |
| JsonComments.CommentHidesJunk | jsoncpp/json_reader.cpp:440-452 | So a two-member object whose comma is a stray byte is accepted with any comment in front of that byte, and refused without. |
| JsonComments.CommentHidesAt | jsoncpp/json_reader.cpp:440-452 | One such document, with a comment and an at sign for its comma, and the same without the comment. |
| JsonText.TokenOfQuoted | jsoncpp/json_reader.cpp:390-400 | A quoted string is one token, whatever follows it. |
| JsonText.UnescapeEscape | jsoncpp/json_writer.cpp:90-150 | Unescaping undoes escaping on every string without NUL. |
| JsonText.DecodeSpelling | jsoncpp/json_reader.cpp:504-550 | The decoded spelling of an integer from -(2^63-1) to 2^64-1 is that integer. |
| JsonUnicode.Utf8Decodes | jsoncpp/json_tool.h:17-45 | A UTF-8 decoder that refuses overlong forms gives back every code point up to 0x10FFFF from its bytes, whatever follows. |
| JsonUnicode.EscapeOfCodePoint | jsoncpp/json_reader.cpp:661-711 | A backslash, u and four hexadecimal digits of either case stand for the UTF-8 bytes of that code point, if it is no high surrogate. |
| JsonUnicode.EscapeOfPair | jsoncpp/json_reader.cpp:661-688 | Two such escapes of a surrogate pair stand for the bytes of the code point that the pair encodes. |
| JsonUnicode.LoneHighSurrogate | jsoncpp/json_reader.cpp:669-687 | A high surrogate that no other escape follows fails the string. |
| JsonUnicode.ShortEscape | jsoncpp/json_reader.cpp:620-644 | Each of the eight two-byte escapes stands for its byte. |
| JsonUnicode.PlainByte | jsoncpp/json_reader.cpp:654-656 | A byte that is neither quote nor backslash stands for itself. |
| JsonUnicode.BadEscape | jsoncpp/json_reader.cpp:651-652 | Every other escape fails the string. |
| JsonSyntax.RfcNumberIsToken | jsoncpp/json_reader.cpp:381-388 | Every number of RFC 8259 is one number token, in front of anything that cannot continue it. |
| JsonSyntax.TrailingComma | jsoncpp/json_reader.cpp:407-416 | Behind a comma a closing brace is accepted if and only if the name of the member before it is empty. |
| JsonSyntax.TrailingCommaInArray | jsoncpp/json_reader.cpp:457-492 | In an array a closing bracket behind a comma is always refused. |
| JsonSyntax.WrittenEscapes | jsoncpp/json_writer.cpp:104-147 | A byte is written by its short escape if it has one, but for the slash, another control character by four digits with upper-case letters, and any other byte as itself. |
| JsonRoundTrip.ArrayReads | jsoncpp/json_reader.cpp:457-492 | Bracketed element texts with their commas read as the array, with any white space before the bracket. |
| JsonRoundTrip.ObjectReads | jsoncpp/json_reader.cpp:402-455 | Braced member texts with names in order read as the object. |
| JsonRoundTrip.FastTextReads | jsoncpp/json_writer.cpp:173-221 | The compact text of a printable value reads as that value in front of anything that does not continue a number. |
| JsonRoundTrip.FastRoundTrip | jsoncpp/json_writer.cpp:166-221 | Parsing the compact document gives the value back, up to the int or uint tag. |
| JsonNormal.ReadIsNormal | jsoncpp/json_reader.cpp:145-550 | Everything the reader accepts has integers tagged by size and members in order, without duplicates. |
| JsonNormal.Reserialised | jsoncpp/json_reader.cpp:104-143 | Writing a parsed document and parsing it again changes nothing. |
| JsonWriter.UintToString | jsoncpp/json_tool.h:63-74 | Writes the digits backwards within the buffer. |
| JsonWriter.IntToString | jsoncpp/json_writer.cpp:32-43 | The spelling of every LargestInt but the least. |
| JsonWriter.QuotedString | jsoncpp/json_writer.cpp:90-150 | The copy without escapes and the escaping loop agree. |
| JsonWriter.FastWriter.WriteValue | jsoncpp/json_writer.cpp:173-221 | Appends the compact text of the value. |
| JsonWriter.FastWriter.Write | jsoncpp/json_writer.cpp:166-171 | The written document parses to the value. |
| JsonLayout.StyledReads | jsoncpp/json_writer.cpp:227-331 | The styled text of every printable value, at any indentation, reads as that value. |
| JsonStyledWriter.StyledWriter.WriteValue | jsoncpp/json_writer.cpp:238-288 | Appends the styled text of the value at the current indentation, or pushes its compact text to the child values. |
| JsonStyledWriter.StyledWriter.IsMultineArray | jsoncpp/json_writer.cpp:333-356 | An array goes on many lines if and only if it is crowded or would reach the right margin; the texts of its elements are kept if it is not crowded. |
| JsonStyledWriter.StyledWriter.WriteArrayValue | jsoncpp/json_writer.cpp:290-331 | Either layout is the styled text of the array. |
| JsonStyledWriter.StyledWriter.WriteOnOneLine | jsoncpp/json_writer.cpp:319-329 | The single line stays below the right margin. |
| JsonStyledWriter.StyledWriter.Write | jsoncpp/json_writer.cpp:227-236 | The document is the styled text of the value, one item to a line and three columns to a level, and parses to the value, up to the int or uint tag. |
| HashTable.NextPower | redis/dict.c:337-349 | The least power of two from 4 on that is not below the request. |
| HashTable.MaskIsRemainder | redis/dict.c:211-219 | Masking a hash with a power of two minus one is the remainder, so every slot is in the table. |
| HashTable.Relink | redis/dict.c:118-131 | Moves a whole chain into the new table, losing and doubling nothing. |
| HashTable.Dict.MoveAll | redis/dict.c:114-133 | After the loop over the slots the new table has exactly the old entries in the right slots, and the old count is zero. |
| HashTable.Dict.Expand | redis/dict.c:92-140 | Rehashing keeps the map; the new size is a power of two; a request below the count is refused. |
| HashTable.Dict.KeyIndex | redis/dict.c:325-373 | The slot for a new key, its hash modulo the size, or -1 exactly for a key in the table; a full table has doubled before, and an empty one got four slots. |
| HashTable.Dict.Add | redis/dict.c:143-163 | Adds exactly the new keys; the table doubles exactly when it is full. |
| HashTable.Dict.Replace | redis/dict.c:169-189 | Binds the key to the value either way, and tells whether it was new. |
| HashTable.Dict.Delete | redis/dict.c:192-223 | Removes exactly the key, unlinking one entry of one chain. |
| HashTable.Dict.Unlink | redis/dict.c:208-212 | Bypasses one entry and leaves every other chain linked. |
| HashTable.Dict.Find | redis/dict.c:261-277 | Finds the entry of the key with its value exactly when it is bound. |
| HashTable.ConcatNoDup | redis/dict.c:192-223 | No key occurs twice in the whole table. |
| HashTable.RehashMeans | redis/dict.c:92-140 | A table with the same entries in the right slots is the same map. |
| HashTable.Iterator.Next | redis/dict.c:290-315 | Returns the entries in the order of slots and chains, one by one, and null after the last. |
| HashTable.DeleteReturned | redis/dict.c:305-312 | Deleting the entry just returned leaves the iterator all it has still to return. |
| HashTable.Sweep | redis/dict.c:290-315 | An iteration that deletes any of the entries it is given visits every entry exactly once. |
| AsyncRedis.CallbackList.Push | redis/async.c:259-281 | Appends to the linked list. |
| AsyncRedis.CallbackList.Shift | redis/async.c:283-299 | Takes the first element off the linked list, or reports it empty. |
| AsyncRedis.AsyncContext.AsyncCommand | redis/async.c:678-769 | A command is accepted exactly while the context is neither disconnecting nor being freed, and queued then. |
| AsyncRedis.AsyncContext.RunCallback | redis/async.c:301-310 | Whatever the callback issues, frees or disconnects, the account of runs owed and runs done stays right. |
| AsyncRedis.AsyncContext.FreeNow | redis/async.c:313-364 | Runs what is left in the queue without a reply, and ends with nothing owed. |
| AsyncRedis.AsyncContext.AsyncFree | redis/async.c:366-372 | Frees at once outside callbacks and only marks the context inside. |
| AsyncRedis.AsyncContext.AsyncDisconnectNow | redis/async.c:375-399 | The clean-disconnect assertion holds for every caller. |
| AsyncRedis.AsyncContext.AsyncDisconnect | redis/async.c:406-412 | Disconnects at once exactly outside callbacks with nothing outstanding. |
| AsyncRedis.AsyncContext.ProcessReply | redis/async.c:507-558 | The reply goes to the callback of the oldest unanswered command; the assertion about subscriptions is not reached. |
| AsyncRedis.AsyncContext.ProcessCallbacks | redis/async.c:479-567 | Replies are given out in issue order until the context is gone; a context that was asked to disconnect, with nothing to write and nothing unanswered, is given up, and without an error or a request to free it no other is. |
| AsyncRedis.AsyncContext.HandleRead | redis/async.c:598-619 | A failed read ends the context with every owed callback run; any other does what its replies call for. |
| AsyncRedis.AsyncContext.HandleWrite | redis/async.c:624-654 | A failed write does too. |
| AsyncRedis.RunsInOrder | redis/async.c:479-567 | Runs happen in the order of the commands, with none left out before the last one. |
| AsyncRedis.OwnReply | redis/async.c:479-567 | The callback of command k is run with reply k, exactly when it has a function. |
| AsyncRedis.AtMostOnce | redis/async.c:301-364 | At any moment every callback has run at most once, in issue order. |
| AsyncRedis.ExactlyOnceWhenFreed | redis/async.c:313-364 | When the context is freed, exactly the accepted commands with a function have had it run, each once. |
| AsyncRedis.Live | redis/async.c:301-654 | In every life of a context, over user calls, reads and writes and whatever its callbacks do, callbacks run in issue order, at most once and with the reply to their own command, and once it is freed every command with a callback has had it run; a read frees a context that is to be disconnected and has nothing to write and nothing unanswered; without failures the disconnect callback gets the good status, and the context is freed only if it was asked for. |
| AsyncRedis.WindDown | redis/async.c:401-412 | Once the output of a context is written, the user disconnects and every command is answered, it is freed with the good status, and if no callback asks for more, no reply is left out. |
| AsyncLogging.FixedBuffer.Append | log/log_stream.h:26-32 | Takes a text whole, or not at all without room for one byte more. |
| AsyncLogging.FixedBuffer.Reset | log/log_stream.h:42-42 | Empties the buffer. |
| AsyncLogging.Logger.Append | log/async_logging.cc:18-55 | The double-buffered append does to queue and current buffer what one growing queue does: a line that fits joins the current buffer or starts the next one. |
| AsyncLogging.Logger.Take | log/async_logging.cc:72-104 | The swap moves the queue and the current buffer to the batch and leaves a spare buffer. |
| AsyncLogging.Logger.CutBatch | log/async_logging.cc:107-124 | A batch of more than 25 buffers becomes its first two, behind a notice in the file; a smaller one stays. |
| AsyncLogging.Logger.WriteOne | log/async_logging.cc:125-129 | The next buffer of the batch goes to the end of the file. |
| AsyncLogging.Logger.Refill | log/async_logging.cc:131-152 | The batch is given up; the writer gets two empty buffers back, and the assertions about the batch hold. |
| AsyncLogging.Logger.WriterStep | log/async_logging.cc:66-152 | The step that is due, of the four above. |
| AsyncLogging.EveryByteAccounted | log/async_logging.cc:18-154 | In every interleaving the batches the writer has looked at and what came after them hold the whole log in order, and the file with the unwritten rest of the batch in hand shows those batches, with exactly the buffers from the third on replaced by a notice where there were more than 25. |
| AsyncLogging.NothingLost | log/async_logging.cc:18-154 | While no batch exceeds 25 buffers, written bytes, then the batch in hand, the queue and the current buffer are all the logged bytes in order. |
| AsyncLogging.AlwaysPacked | log/async_logging.cc:31-55 | At any moment the queue with the current buffer, and the batch just taken, are what comes of their lines when a line goes to a new buffer exactly if the current one has no room for it. |
| AsyncLogging.LinesInOrder | log/async_logging.cc:18-104 | The batches with the lines since the last one are all lines ever appended, in order. |
| AsyncLogging.OneBuffer | log/async_logging.cc:31-34 | While the lines since the last batch are less than a buffer in all, no buffer is queued. |
| AsyncLogging.NothingLostBelow | log/async_logging.cc:18-154 | If less than 52 million bytes are logged between any two batches, no batch exceeds 25 buffers and nothing is lost. |
| AsyncLogging.SharpBound | log/async_logging.cc:107-124 | There are 52 million bytes that make a batch of 26 buffers, which is cut. |
| AsyncLogging.NoticeCounts | log/async_logging.cc:109-117 | The number read back from a notice is that of the dropped buffers. |
| AsyncLogging.RunSchedule | log/async_logging.cc:18-154 | The code does both: any interleaving of its steps ends in the state of the simple queue, so its buffers are packed and its file and memory account for the log as stated above. |
| FileRefs.Tables.Upload | api/api_upload.cc:199-265 | A new file gets a row with count 1 and one user row. |
| FileRefs.Tables.DealMd5 | api/api_md5.cc:64-153 | The count stays right even when the insert fails, because it is taken back. |
| FileRefs.Tables.SaveFile | api/api_deal_sharefile.cc:217-312 | The count goes up whenever the file is known and the user does not have it, even when the insert then fails; so the counts stay right if and only if a needed insert does not fail. |
| FileRefs.Tables.DeleteFile | api/api_dealfile.cc:283-356 | The exact tables and storage in every case; the counts stay right if and only if the user has the row or the file is unknown, and a file that some row still names leaves storage if and only if the user has no such row and its count is one. |
| FileRefs.LostBy | api/api_dealfile.cc:305-355 | That condition, for all tables with right counts. |
| FileRefs.Tables.SharePicture | api/api_sharepicture.cc:442-523 | The row is inserted in any case and the count goes up for a known file only; the counts stay right if and only if the file is known. |
| FileRefs.Tables.CancelSharePicture | api/api_sharepicture.cc:302-416 | Removes the picture row and its reference, and the file from storage exactly when that was the last one; nothing changes without the row, and no file some row names is lost. |
| FileRefs.UndercountBreaks | api/api_dealfile.cc:305-326 | Counting down where no row went breaks the counts. |
| FileRefs.DanglingBreaks | api/api_sharepicture.cc:488-513 | A picture row for an unknown file breaks the counts. |
| FileRefs.StoredIffReferenced | api/api_dealfile.cc:328-355 | A file is in storage exactly when some row names it. |
| FileRefs.Serve | api/api_dealfile.cc:196-370 | Every proper request keeps the counts and the storage right. |
| FileRefs.ServeAll | api/api_dealfile.cc:196-370 | So does every run of requests from empty tables. |
| FileRefs.LoseFile | api/api_dealfile.cc:283-356 | From empty tables, an upload and a delete by a user without the file leave a row whose file is gone. |
| FileRefs.CountOneTooMany | api/api_deal_sharefile.cc:252-289 | From empty tables, an upload and a save whose insert fails leave the count 2 with one row. |
| FileRefs.ShareNothing | api/api_sharepicture.cc:476-513 | From empty tables, sharing an unknown picture leaves a row without a file. |
| ConnPool.Pool.constructor | mysql/db_pool.cc:365-409 | Init fills the pool with the minimum of connections, or stops at the first that fails. |
| ConnPool.Pool.Get | mysql/db_pool.cc:419-477 | Hands out the connection that has been free longest, or a new one below the maximum, and waits exactly when none is free at the maximum; the free list and the counts are fixed in every case. |
| ConnPool.Pool.Wake | mysql/db_pool.cc:432-455 | After a wait: the longest free connection, or nothing on timeout or abort. |
| ConnPool.Pool.Release | redis/cache_pool.cpp:964-983 | A returned connection is free again; one that is free already is refused. |
| ConnPool.Pool.Abort | redis/cache_pool.cpp:864-881 | After the abort nothing is handed out. |
| ConnPool.RunEvents | mysql/db_pool.cc:393-497 | In every interleaving no connection is free twice or free and held, and free plus held is the count, which stays within the maximum. |
| Calendar.DateOfNumber | log/date.cc:18-39 | The date computed from the number of a date is that date. |
| Calendar.NumberOfDate | log/date.cc:18-39 | Every day number from 0 on is the number of the valid date computed from it. |
| Calendar.NumberOfNextDate | log/date.cc:18-25 | The formula numbers consecutive calendar days consecutively. |
| Calendar.DatesAdvance | log/date.cc:27-39 | Consecutive day numbers are consecutive days of the calendar. |
| Calendar.DateFitsInt | log/date.cc:27-39 | No intermediate result of the conversion overflows an int, exactly up to the last such day. |
| Calendar.NumberFitsInt | log/date.cc:18-25 | Nor does any of the other conversion, up to the date of that day. |
| Calendar.ToUtcTime | log/timezone.cc:265-288 | The truncated division with its adjustment breaks every moment down by the floor, before 1970 too. |
| Calendar.FloorDay | log/timezone.cc:268-274 | Truncated quotient and remainder with the adjustment are the floor and the non-negative remainder. |
| Calendar.TimeRoundTrip | log/timezone.cc:265-301 | fromUtcTime undoes toUtcTime. |
| Calendar.FieldsRoundTrip | log/timezone.cc:265-301 | toUtcTime undoes fromUtcTime on valid fields up to the last day that the int arithmetic can convert. |
| Calendar.FieldsInRange | log/timezone.cc:265-288 | Every field is in its range, and the day of the year counts the months before. |
| Calendar.WeekDays | log/date.h:76-77 | The weekday of any moment is Thursday plus the days since 1 January 1970, modulo 7. |

## Left out

- HTTP responses, callbacks that return nonzero, pausing, non-strict mode, what follows an upgrade, bodies that end with the connection, SKIPBODY and http_parser_parse_url: the server parses requests only, with callbacks that return 0.
- HttpParser.Parser.ExecutePieces: after an error the callbacks of different cuts may differ by the last, unfinished portion of data, because the code drops it; this is what `CutOff` says.
- RespReader.Reader.FeedPieces: a feed that lets the buffer exceed 2^31-1 bytes, which seekNewline and sdsrange count in int; `SeekNewline` and `SdsRange` state what they do then.
- RespReader.Reader.MoveToNextTask: a finished child is appended to the items of its parent's slot, where the C code stores it through `parent->element[idx]` when it is created; the reply tree handed out is the same.
- RespFormat.FormatCommandArgv: the command is at most 2^31-1 bytes, which its int result demands; the printf formats of redisvFormatCommand are not modelled.
- Strings as sds: headers, growth policy and allocation failure.
- SdsQuote.SplitArgs: the line has no NUL, which ends a C line.
- JSON comments: they are read over, but their text is not kept with the values, so what the styled writer prints of it is left out.
- JSON doubles: `Real` keeps the text instead of the number that sscanf makes of it, and which texts sscanf reads is left to the constant `ScansAsDouble`, of which nothing is known; writing doubles is left out.
- JsonReader.Reader.Parse: the stack of pointers to value slots is replaced by returned values, and error messages carry no location.
- JsonStyledWriter.StyledWriter.IsMultineArray: sizes and widths are unbounded here and int in the code, so arrays beyond 2^31 elements or characters are outside the model.
- JsonWriter.IntToString: the least LargestInt, whose negation overflows in the code, is excluded, as it is from the round trips.
- JSON strings of 2^31-2 bytes and more, which the value class truncates; the YAML and dropped-null options; StyledStreamWriter.
- HashTable.Dict.Add: fewer than 2^30 entries; beyond, the int slot index and the int cast of the size in dictNext no longer hold the size.
- HashTable.Dict.Expand: key and value duplication and destruction callbacks, and a comparison that disagrees with equality; dictRelease only frees.
- AsyncRedis.AsyncContext.ProcessCallbacks: subscribe and monitor modes, the connection phase and the output bytes of commands; the reader gives one reply a command, or one error to a connection without commands.
- AsyncRedis.AsyncContext.RunCallback: a callback's behaviour is a script chosen in advance by the number of its command, which covers every behaviour because each runs at most once.
- AsyncLogging.Logger.Take: buffers are bytes instead of objects, because each is owned by one unique_ptr at a time, so `FixedBuffer` stands beside the logger; what is still in memory when the writer is stopped is not written by the code either.
- AsyncLogging.Logger.CutBatch: the formatted time is a parameter.
- FileRefs.Tables.Upload: file_info has no unique key on md5, so an upload of a known md5 would add a second row; uploads here bring new files.
- FileRefs.Tables.DeleteFile: the share list and the Redis counters, whose failures make the handler stop early, are left out; every statement but the modelled insert succeeds.
- ConnPool.Pool.Abort: the cache pool also resets its count; counts are not claimed after an abort.
- Calendar.ToUtcTime: moments whose day number lies between 0 and the last that the int arithmetic can convert.
- Calendar.DateOfNumber: local time and zone files.
- Sockets, event loop, configuration, log rolling, request decoding and storage commands: input and output.
