# go-clamd protocol engine

A model of the protocol engine of go-clamd, a Go client for the ClamAV
daemon (clamd). The model covers five parts:

- **Parsing a reply line.** `parseResult` is a total map from a daemon line
  to a `ScanResult` record. The line format is given by the anchored regular
  expression `resultRegex`; here a hand-written grammar replaces it.
- **Framing what the client writes.** A command is `n<command>\n`. A stream
  chunk is a 4-byte big-endian length followed by the data. The stream ends
  with four zero bytes.
- **Reading a reply.** `readResponse` splits the daemon's bytes into
  newline-terminated lines, trims each line and parses it, keeping the order.
- **The client operations.** This covers the transport that `newConnection`
  picks from the address, the five scan commands, the `PING`/`PONG` and
  `RELOAD`/`RELOADING` checks, the fold of a `STATS` reply into a `Stats`
  record, and the `INSTREAM` upload loop of `ScanStream`.
- **The daemon's view.** For the framing, the model also says how the daemon
  reads the bytes back. This shows that nothing sent is lost or misread.

Modules:

- **`ByteText`**: byte strings, plus the Go string functions the source uses
  (`strings.TrimRight` with the cutset " \t\r\n" as `TrimLineSpace`,
  `strings.Trim` with the cutset " " as `TrimSpaces`, `HasPrefix`, `Atoi`).
- **`Response`**: the reply-line grammar, `parseResult`, and the `RES_*`
  constants.
- **`Lines`**: what `readResponse` makes of a byte stream.
- **`Framing`**: the wire formats and `CHUNK_SIZE`.
- **`Conn`**: `CLAMDConn`, modelled as a class with these fields:
  - `sent`: the bytes written so far;
  - `incoming`: the bytes the daemon sends before it closes its side;
  - `closed`: whether the connection is closed. Once it is, every write and
    read fails.
- **`ClamdStats`**: the `Stats` record and its fold.
- **`Clamd`**: the address dispatch, the commands, and `Ping`, `Reload`,
  `Stats` and the scans.
- **`Stream`**: `ScanStream`, with the `io.Reader` modelled as a `Source`
  class that plays a script of read results.

Bytes are `seq<Byte>`, where `Byte` is a `char` below 256. A Go `string`
and a `[]byte` with the same contents are the same value.

## Model

| member | source | states |
|---|---|---|
| Response.ParseResult | conn.go:139-179 | parseResult always returns a record whose Raw is exactly the input line, and whose size is never negative |
| Response.ParseErrorExactly | conn.go:143-148 | A line gives status "PARSE ERROR" if and only if it is outside the grammar of resultRegex. The record is then exactly Raw = line, Description = "Regex had no matches", and an empty path, an empty hash and size 0. The "Invalid status field" branch can never be taken. |
| Response.Match | conn.go:51 | Soundness of the hand-written matcher. The submatches it finds are well formed and render back to the whole line. |
| Response.MatchComplete | conn.go:51 | Completeness of the matcher. Every well-formed set of submatches is found again in the line it renders. |
| Response.MatchIffGrammar | conn.go:51 | A line matches if and only if it is the rendering of some well-formed submatches (path before the first colon, optional desc with an optional (hash:digits) group, status word). |
| Response.ParseRendered | conn.go:150-176 | A matched line gives back its path, desc and hash groups, Atoi of the size group, and its status word |
| Response.ParsedLineReassembles | conn.go:51 | On a match: the path is non-empty and has no colon; the status is OK, FOUND or ERROR and ends the line; the line is rebuilt from the record. The (hash:digits) group is present exactly when the hash is non-empty, and without it the size is 0. |
| Response.ParseCleanFile | conn.go:139-179 | "path: OK" parses to a clean record, with no description, hash or size |
| Response.ParseInfectedFile | conn.go:139-179 | "path: Name(hash:n) FOUND" parses to Name, hash, size n and status FOUND |
| Response.ParseFoundWithoutHash | conn.go:156-162 | "path: Name FOUND" matches with an empty hash and size 0, so FOUND does not imply a hash |
| Response.ParseOversizedSize | conn.go:158-162 | When the size group overflows a 64-bit int, Atoi fails, the size stays 0 and the hash is kept |
| Response.ParsePathErrors | conn.go:51 | A line that starts with a colon, or whose first colon is not followed by a space, is a parse error |
| ByteText.Atoi | conn.go:159-162 | strconv.Atoi on a digit string succeeds exactly when the value fits a 64-bit int, and then gives that value |
| ByteText.TrimLineSpace | conn.go:128 | strings.TrimRight(line, " \t\r\n"): the result is a prefix of the line, only trailing " \t\r\n" bytes were removed, and it ends in none of them |
| ByteText.TrimSpaces | clamd.go:178 | strings.Trim(s, " "): the result is s with only spaces removed before and after it, and it neither starts nor ends with a space |
| Framing.ReadCommandFrame | conn.go:63-68 | A command frame "n" + command + "\n" is read back by the daemon as exactly that command, and the bytes after it are untouched |
| Framing.HeaderRoundTrip | conn.go:81-87 | The length prefix is four bytes encoding len mod 2^32, big-endian |
| Framing.HeaderOfValue | conn.go:81-87 | Every four-byte prefix is the header of the length it encodes, so the encoding is a bijection onto lengths below 2^32 |
| Framing.EofMarkerIsEmptyHeader | conn.go:73-87 | The sendEOF marker [0,0,0,0] is the header sendChunk writes for empty data |
| Framing.ReadChunkedStream | conn.go:81-99 | Non-empty chunks below 2^32 bytes, followed by the terminator, are read back by the daemon as exactly those chunks, and the bytes after the terminator are left over |
| Framing.EmptyChunkEndsStream | conn.go:73-99 | A zero-length chunk would be read as the terminator |
| Conn.Connection.SendCommand | conn.go:63-68 | sendCommand appends exactly "n" + command + "\n" and nothing else, and fails exactly on a closed connection |
| Conn.Connection.SendEOF | conn.go:73-76 | sendEOF appends exactly [0,0,0,0] |
| Conn.Connection.SendChunk | conn.go:81-100 | sendChunk appends the 4-byte big-endian length, then the data. The result is the second write's error. |
| Conn.Connection.FindNewline | conn.go:119 | The scan of ReadString('\n') stops at the first newline at or after pos, or at the end of the input |
| Conn.Connection.ReadResponse | conn.go:105-134 | readResponse emits exactly Responses(input): one record per newline-terminated line, in order. On a closed connection it emits nothing. |
| Lines.ResponsesCount | conn.go:118-130 | readResponse emits one record per newline, and the final fragment gives none |
| Lines.ResponsesOfLines | conn.go:118-130 | For a reply made of lines followed by a fragment without a newline, record i is parseResult of line i with trailing " \t\r\n" removed |
| Lines.ReplyLinesAppend | conn.go:118-130 | Reading a reply cut at a line boundary gives the lines of the first part, then the lines of the second |
| ClamdStats.Stats.constructor | clamd.go:174 | &Stats{} has every field empty |
| ClamdStats.Stats.Route | clamd.go:177-190 | A POOLS line sets Pools to raw[6:] trimmed of spaces. A STATE, THREADS, QUEUE or MEMSTATS line sets its field to the whole line. END and unknown lines change nothing. The first matching prefix decides. |
| ClamdStats.ApplyField | clamd.go:176-191 | A line changes the field of its own section and no other field |
| ClamdStats.CollectStats | clamd.go:174-193 | The loop of Stats leaves the record that the fold of the reply's records gives, in order |
| ClamdStats.LastLineWins | clamd.go:176-191 | The last line of a section decides that section's field |
| ClamdStats.MissingSectionStaysEmpty | clamd.go:174-191 | A section with no line keeps "". Unknown lines never make the fold fail. |
| Clamd.ChooseEndpoint | clamd.go:93-110 | newConnection dispatches on the URL scheme: "tcp" dials the URL's host, "unix" dials the URL's path, and any other scheme dials the whole address as a Unix socket. A URL parse failure returns an error without dialing. |
| Clamd.OtherSchemeDialsAddress | clamd.go:105-106 | An address with any other scheme is dialed exactly as written |
| Clamd.Verb | clamd.go:232-275 | Each scan verb is non-empty and contains no space and no newline |
| Clamd.ScanCommandSplits | clamd.go:232-275 | A scan command splits at its first space into the verb and the path |
| Clamd.ScanCommandInjective | clamd.go:232-275 | Different kinds or different paths give different commands |
| Clamd.ScanCommandOnWire | conn.go:63-68 | On the wire a scan is "n" + verb + " " + path + "\n", and the daemon reads the command back whole |
| Clamd.AckOfReply | clamd.go:145-153 | The acknowledgement is accepted if and only if the first line of the reply, less trailing white space, equals it. Otherwise the error carries the parse of that line. |
| Clamd.SimpleCommand | clamd.go:115-134 | simpleCommand sends the command frame and returns all the reply's records. A failed write is reported, and then nothing is read. |
| Clamd.Ping | clamd.go:139-156 | Ping sends PING and succeeds exactly when the first record's Raw is "PONG" |
| Clamd.Reload | clamd.go:199-216 | Reload sends RELOAD and succeeds exactly when the first record's Raw is "RELOADING" |
| Clamd.GetStats | clamd.go:168-194 | Stats sends STATS and returns a fresh record equal to the fold of the reply |
| Clamd.ScanPath | clamd.go:229-275 | Each scan sends "VERB path" and returns the reply's records |
| Stream.Source.Read | clamd.go:308 | io.Reader.Read puts the next scripted data in the buffer and reports its error flag. An exhausted reader returns 0 bytes and io.EOF. |
| Stream.RelayOnce | clamd.go:306-316 | One turn of the loop sends one chunk when the read returned bytes and none otherwise, and stops exactly when the read came with an error |
| Stream.ScanStream | clamd.go:287-332 | ScanStream writes INSTREAM, then one chunk per read that returned bytes, up to and including the first read with an error, then exactly one EOF marker. Only the EOF write error is reported. |
| Stream.PayloadsBounded | clamd.go:305-317 | Every chunk holds 1 to 1024 bytes, so no data chunk is mistaken for the terminator |
| Stream.PayloadsFlatten | clamd.go:305-317 | The chunks concatenated are exactly the bytes the reader produced |
| Stream.StreamOnWire | clamd.go:303-319 | The daemon reads what ScanStream sends back as the INSTREAM command followed by exactly the chunks |
| Stream.FullReaderChunks | clamd.go:305-317 | A reader that fills every buffer yields ceil(n/1024) chunks, all full except the last, which together are the data |
| Stream.TwentyFiveHundredBytes | clamd.go:305-317 | 2500 bytes from such a reader go out as chunks of 1024, 1024 and 452 bytes |

## Left out

- **Dialing.** `newCLAMDTcpConn` and `newCLAMDUnixConn` (socket I/O, `TCP_TIMEOUT`, the timeout error) are not modelled. `ChooseEndpoint` names the endpoint. The client methods take a `Connection` that is already dialed.
- **URL parsing.** The internals of `url.Parse` are a library call. Its result is an input to `ChooseEndpoint` (`None` when parsing fails).
- **Regular expressions.** The Go `regexp` engine is replaced by the hand-written matcher `Response.Match`, which is proved equal to the grammar.
- **Concurrency.** The goroutines, the result channel and the `sync.WaitGroup` are not modelled. The channel becomes the sequence of records, produced in order. The connection is closed after the reply has been read, where the Go code closes it in a goroutine once the reader is done.
- **The abort channel of `ScanStream`.** Its goroutine closes the connection concurrently. The model takes the connection as open or closed for the whole call.
- **Transport read errors.** A read error other than EOF ends the Go reader loop silently. The model's input ends only at the daemon's EOF, or fails at once on a closed connection.
- **Write errors.** A write on an open connection always succeeds. Write errors are modelled only as "the connection is closed".
- **The `ScanStream` return value.** Go returns the channel with a nil error even when the reply is empty. The model returns `Ok` with the records.
- **`Version`, `Shutdown` and `EICAR`.** `Version` and `Shutdown` only send a command through `simpleCommand`, which is modelled. `EICAR` is test data.
- **Integer width.** Go's `int` is taken to be 64 bits wide (`MAX_INT`). Chunk lengths are 32-bit (`LENGTH_MODULUS`).
- **Unicode.** The model matches lines as bytes, while Go's `regexp` decodes them as UTF-8 runes. The two agree on every line: the bytes the expression tests (`:`, `(`, `)`, space, `0`-`9` and the status letters) are ASCII; no byte inside a multi-byte UTF-8 sequence equals an ASCII byte; and an invalid byte decodes to U+FFFD, which `[^:]` accepts like any other non-colon byte.
- Clamd.Ping: requires a non-empty reply on an open connection. The Go code reads the first record without checking that there is one; with an empty reply the channel is closed and the nil record is dereferenced, a panic.
- Clamd.Reload: the same precondition as Ping, for the same reason.
- Clamd.GetStats: requires every line starting with POOLS to be at least six bytes long, because `s.Raw[6:]` panics on a shorter one. The same holds for ClamdStats.CollectStats, ClamdStats.Stats.Route and the fold.
- Stream.ScanStream: does not close the connection when the EOF write fails. The Go code returns at that point too, and leaves closing to the abort goroutine.
