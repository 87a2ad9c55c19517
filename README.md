# IPK project 1 — the Martinu line protocol, modelled in Dafny

The repository is a small TCP client/server pair written in C (`ipk-server.c`,
`ipk-client.c`). The client asks about accounts in the server's passwd
database. The server answers line by line and closes every answer with the line
`< Martinu protocol -- End >`. The dialogue is:

1. The client sends the handshake line `< Martinu Protocol version 1.0 >`.
2. It sends a command line (`-n`, `-f`, `-l` or `-L`).
3. It sends the login or prefix with no newline after it.

This project models that protocol and proves its properties. The modules are:

- `CLib` (`clib.dfy`) covers the C string routines the code relies on:
  - NUL-terminated strings (`CString`);
  - `strcmp` and `strncmp`;
  - `bzero`.
- `Wire` (`wire.dfy`) holds what both programs share:
  - the two protocol strings;
  - a `Connection` class: the bytes still to be read (`pending`) and the bytes written so far (`sent`). Each `char` stands for one byte, so the 256-byte buffer and the 255-byte line limit count bytes;
  - `readLine` as an in-place loop over a 256-character `array`, proved against the framing function `Frame`;
  - `sendSimple` and `sendLine` as appends to `sent`.
- `Server` (`server.dfy`) covers one session of the forked child:
  - `startsWith`;
  - the `send*` helpers, each as a method over the connection;
  - the session body as a method that bzeroes and refills one shared buffer.
  
  Each method is proved against pure functions. `ParseRequest` is what the session reads. `SessionOutput` is what it writes. The passwd database is an abstract `seq<Entry>` in `getpwent` order, and `getpwnam` is "the first entry with that name".
- `Client` (`client.dfy`) covers:
  - the argument rule of `main` (the `getopt` loop counting `flags`), proved against `Select`;
  - the request-sending sequence, proved against `Encode`;
  - the receive loop, proved against `Receive`.
  
  It also holds the lemmas that join client and server:
  - the server decodes what the client encodes;
  - over a well-formed database the client prints exactly the reply lines of its query;
  - a warning directly before the terminator makes the client miss the terminator.

Modelling choices, where the C code has no defined behaviour:

- An exhausted input is a failed `read` (`ret < 0`). `readLine` then stores what it has and returns.
- The one raw `read` of the payload delivers `min(255, |rest|)` characters. The server sees the C string of them.
- In the six-argument form the client passes an uninitialised `login` to `sendSimple`. The model sends the empty login.

## Model

| member | source | states |
|---|---|---|
| CLib.CString | ipk-server.c:59 | strlen/C-string view: the result is a prefix of the buffer with no NUL, stopped by a NUL when shorter, the whole buffer when it holds no NUL |
| CLib.CStringStopsAtNul | ipk-server.c:245-247 | characters after a NUL never change the C string, so a bzero'd buffer filled by `read` holds exactly the C string of what was read |
| CLib.Strcmp | ipk-server.c:140 | strcmp returns 0 exactly when the two strings are equal |
| CLib.Strncmp | ipk-server.c:53 | strncmp(a, b, n) returns 0 exactly when the first min(n, len) characters of both agree |
| CLib.Bzero | ipk-server.c:237 | bzero leaves every cell of the buffer NUL |
| Wire.Connection.ReadChar | ipk-server.c:153 | `read(fd, &c, 1)`: fails (ret < 0) on exhausted input, otherwise returns 1 and consumes exactly the first character |
| Wire.Connection.ReadInto | ipk-server.c:247 | `read(fd, buffer, n)`: takes min(n, pending) characters into the front of the buffer, leaves the rest of the buffer and of the input untouched |
| Wire.Connection.Write | ipk-server.c:59 | `write` appends its bytes to what the connection has sent |
| Wire.Frame | ipk-server.c:147-168 | the framing rule of readLine: the text is at most 255 characters, and a non-empty input always shrinks |
| Wire.FrameSplits | ipk-server.c:147-168 | readLine consumes exactly the stored text plus the newline when it met one; the text never holds a newline; truncation happens exactly at 255 characters; a failed read leaves nothing; at most 255 characters are consumed |
| Wire.FrameAtNewline | ipk-server.c:159-163 | a newline among the first 255 characters: the characters before it are stored, the newline consumed, nothing after it read |
| Wire.FrameAtBoundary | ipk-server.c:150-167 | 255 characters without newline: all are stored, the outcome is truncation and the rest of the physical line, newline included, stays unread |
| Wire.FrameAtFailure | ipk-server.c:154-158 | a read failing before any newline leaves everything read so far stored |
| Wire.FrameSentLine | ipk-server.c:66-70 | a line sent by sendLine (no newline, under 255 characters) is read back unchanged and the rest of the input is left as it was |
| Wire.Stored | ipk-server.c:150-167 | reference definition of the buffer readLine leaves: the stored text, then the NUL written at `data[len]` unless the loop ran out at the bound, then the old cells; `ReadLine` is proved against it and `StoredKeepsLastCell` states its bound |
| Wire.Returned | ipk-server.c:155-167 | reference definition of readLine's return value: the stored length after a newline or a failed read, 0 after 255 characters without newline; `ReadLine` is proved against it |
| Wire.StoredKeepsLastCell | ipk-server.c:150-167 | readLine never writes the last buffer cell (index 255) |
| Wire.ZeroedHoldsEmpty | ipk-client.c:183-186 | a bzero'd buffer holds the empty C string, so the receive loop is entered |
| Wire.SeenAfterBzero | ipk-server.c:237-239 | after bzero and readLine the caller's C string is the stored text, also at the 255-character boundary where readLine writes no NUL |
| Wire.ReadLine | ipk-server.c:147-168 | the loop leaves the input at `Frame(input).rest`, returns the stored length (0 at the boundary) and leaves the buffer as text + NUL + old contents, or text + old contents at the boundary; the client's identical copy (ipk-client.c lines 56-77) is this same method |
| Wire.SendSimple | ipk-server.c:57-63 | sends the C string of its argument and nothing else |
| Wire.SendLine | ipk-server.c:66-70 | sends the C string and one newline |
| Server.StartsWith | ipk-server.c:49-54 | true exactly when `pre` is a prefix of `str` (so false whenever `str` is shorter) |
| Server.Lookup | ipk-server.c:83 | getpwnam: None exactly when no entry has the name, otherwise the first entry with it |
| Server.Names | ipk-server.c:114-117 | the listing has one name per entry, in enumeration order |
| Server.NamesWithPrefix | ipk-server.c:123-135 | reference definition of the -l listing: the names whose entry passes `startsWith(prefix, name)`, in enumeration order; `NamesWithPrefixHas`, `NamesWithPrefixAppend`, `NamesWithPrefixBound` and `SendUsersByPrefix` state what it means |
| Server.NamesWithPrefixAppend | ipk-server.c:125-132 | the prefix listing of a database split in two is the listing of the first part followed by the second: order is kept |
| Server.NamesWithPrefixHas | ipk-server.c:125-132 | a name is listed exactly when some entry has it and it starts with the prefix |
| Server.NamesWithPrefixBound | ipk-server.c:125-132 | never more names than entries |
| Server.EmptyPrefixListsAll | ipk-server.c:49-54 | sendUsersByPrefix with the empty prefix lists every name, exactly what sendAllUsers lists |
| Server.ReplyLines | ipk-server.c:244-266 | reference definition of the reply lines of a known token: one gecos or home line (LOGIN_UNKNOWN when getpwnam fails) for -n/-f, the prefix listing for -l, every name for -L; `LookupReplyIsOneLine` and `ReplyLinesPrintable` state its properties |
| Server.ReadCommand | ipk-server.c:241-259 | reference definition of what the session reads after the handshake: the token line, then for -n/-f/-l one raw read of at most 255 characters; `ReadCommandBounds` bounds it and `ServeCommand` is proved against it |
| Server.ParseRequest | ipk-server.c:237-259 | reference definition of everything the session reads: the handshake line, then `ReadCommand`; `ParseSentHeader` and `RequestParsed` state what it yields for what the client sends |
| Server.Respond | ipk-server.c:244-270 | reference definition of the response before the terminator: the reply lines of a known token, SERVER_WARNING without newline for any other token |
| Server.SessionOutput | ipk-server.c:237-274 | reference definition of everything one session writes: SERVER_WARNING first when the header differs from PROTOCOL_HEAD (checkProtocolHeader does not stop the session), then `Respond`, then the PROTOCOL_END line; `SessionEndsWithTerminator`, `GoodRequestAnswered`, `BadHeaderWarnsAndContinues` and `ServeSession` state what it means |
| Server.ReadCommandBounds | ipk-server.c:241-266 | token and payload fit the buffer; -L and unknown tokens read no payload and nothing past their own line |
| Server.ParseSentHeader | ipk-server.c:238-239 | a header sent as a line is read whole and the command starts right after it |
| Server.SessionOutputOf | ipk-server.c:237-274 | definitional unfolding of `SessionOutput` into its two header cases, used by the lemmas that state its properties |
| Server.SessionEndsWithTerminator | ipk-server.c:272-274 | every session's output ends with the PROTOCOL_END line |
| Server.GoodRequestAnswered | ipk-server.c:237-274 | correct header and known command: the reply lines, then the terminator, and nothing else |
| Server.BadHeaderWarnsAndContinues | ipk-server.c:138-144 | a wrong header line under 255 characters, without a newline, only adds SERVER_WARNING (no newline) in front of the output a correct header gets: the session continues unchanged. A header of 255 characters or more is cut by readLine, and the rest of that line is then read as the command line |
| Server.UnknownCommandOnlyWarns | ipk-server.c:267-274 | an unknown token yields only SERVER_WARNING (no newline, no payload read, no lookup) and the terminator line |
| Server.LookupReplyIsOneLine | ipk-server.c:79-107 | -n and -f reply with exactly one line: gecos or home of the first matching entry, LOGIN_UNKNOWN when none matches |
| Server.CheckProtocolHeader | ipk-server.c:138-144 | sends SERVER_WARNING (no newline) unless the line is PROTOCOL_HEAD, else nothing |
| Server.SendUserIdInfo | ipk-server.c:79-91 | sends the -n reply line |
| Server.SendUserDirInfo | ipk-server.c:94-107 | sends the -f reply line |
| Server.SendAllUsers | ipk-server.c:110-120 | sends every name as a line in enumeration order (loop invariant: the lines of the entries seen so far) |
| Server.SendUsersByPrefix | ipk-server.c:123-135 | sends, in order, a line for exactly the names starting with the prefix |
| Server.SendEndOfProtocol | ipk-server.c:73-76 | sends the PROTOCOL_END line |
| Server.ReadPayload | ipk-server.c:245-247 | bzero + one raw read: the payload is the C string of the first min(255, pending) characters, which are consumed |
| Server.ServeCommand | ipk-server.c:241-270 | writes `Respond` of the command read and leaves the input after what `ReadCommand` consumes |
| Server.ServeSession | ipk-server.c:237-274 | the whole child session writes `SessionOutput(input, dir)` and consumes what `ParseRequest` reads |
| Client.TokenOf | ipk-client.c:104-117 | a lookup option's token is one the server takes a payload for, spelled with that option's letter |
| Client.Select | ipk-client.c:91-148 | reference definition of the argument rule: seven arguments with only -h/-p/-n/-f/-l and exactly one lookup option, or six with only -h/-p/-l and some -l (giving -L); everything else is ARG_ERR; `SelectOneLookup`, the two `SelectRefuses` lemmas and `SelectedIsCommand` state its cases and `SelectRequest` is proved against it |
| Client.SelectOneLookup | ipk-client.c:91-126 | seven arguments with exactly one of -n/-f/-l: accepted, with that option's token and argument as login |
| Client.SelectRefusesTwoLookups | ipk-client.c:123-126 | two lookup options: ARG_ERR |
| Client.SelectRefusesNoLookup | ipk-client.c:123-126 | no lookup option: ARG_ERR |
| Client.SelectedIsCommand | ipk-client.c:128-148 | every accepted request carries a token the server knows; the seven-argument form yields a lookup token that takes a payload, the six-argument form yields -L with an empty login, and only -L goes without a payload |
| Client.SelectRequest | ipk-client.c:91-152 | the getopt loop with its `flags` counter and last-wins `type`/`login` computes exactly `Select` |
| Client.SendRequest | ipk-client.c:177-184 | sends PROTOCOL_HEAD + newline, token + newline, then the login without newline, and leaves the buffer zeroed |
| Client.Encode | ipk-client.c:178-184 | reference definition of the bytes of a request: the handshake line, the token line, the login without newline; `SendRequest` is proved against it and `RequestParsed` proves that the server decodes it |
| Client.ReadSentCommand | ipk-client.c:181-184 | the server reads the sent token line and, when it takes one, the whole login as payload in one read |
| Client.RequestParsed | ipk-client.c:178-184 | round trip: the server parses the encoded request with the correct header, the same token, the login as payload for -n/-f/-l (when it is non-empty and fits 255 characters) and leaves the login unread after -L |
| Client.EmptyLoginLeavesNothingPending | ipk-client.c:184 | an empty login for -n/-f/-l makes `sendSimple` write nothing, so after the server's two lines nothing is left for its raw read of the payload (ipk-server.c lines 247, 253, 259), where the program blocks |
| Client.LongLoginTruncated | ipk-client.c:184 | a login longer than 255 characters reaches the server cut after 255, the rest stays unread |
| Client.Seen | ipk-client.c:188-189 | the line the client compares has no newline and at most 255 characters |
| Client.TerminatorArrives | ipk-client.c:186-195 | reference definition of the inputs on which the receive loop ends: some framed line is PROTOCOL_END; `ExhaustedNeverEnds`, `WarningHidesTerminator` and `EndToEnd` say when it holds |
| Client.Receive | ipk-client.c:186-195 | no printed line is PROTOCOL_END or holds a newline, and the loop always consumes input |
| Client.ReceiveStep | ipk-client.c:186-195 | definitional unfolding of `Receive` for a line other than PROTOCOL_END: that line is printed and the loop continues after it |
| Client.ReceiveTerminator | ipk-client.c:186-195 | PROTOCOL_END stops the loop at once, unprinted, with nothing after it read |
| Client.ReceivePrintable | ipk-client.c:186-195 | a printable line is printed and reading continues right after it |
| Client.ReceiveLines | ipk-client.c:186-195 | printable lines (no newline, under 255 characters, not PROTOCOL_END) sent before the terminator are printed one for one, in order, and nothing after the terminator is read; a longer line would be printed as two |
| Client.ReplyLinesPrintable | ipk-server.c:79-135 | over a well-formed database every reply line comes back intact and is not PROTOCOL_END |
| Client.EndToEnd | ipk-client.c:178-195 | client and server together: the client prints exactly the reply lines of its request and reads all the server wrote (for -n/-f/-l with a non-empty login; with an empty one the program deadlocks) |
| Client.SelectedRequestAnswered | ipk-client.c:91-195 | from accepted options to screen: the printed lines are the reply to the query the options name (lookup logins non-empty, as for `EndToEnd`) |
| Client.MergedLine | ipk-server.c:142 | text sent without newline shares a line with the line that follows it |
| Client.ExhaustedNeverEnds | ipk-client.c:62-67 | on an exhausted input readLine returns the empty line for ever: the loop cannot end there |
| Client.WarningHidesTerminator | ipk-client.c:186-195 | a warning followed directly by the terminator line hides the terminator from the client |
| Client.UnknownCommandHangsClient | ipk-server.c:237-274 | after an unknown command, with a correct or a wrong header, the server's output never lets the client's loop end: one or two SERVER_WARNINGs run into the terminator line |
| Client.WarningTwiceHidesTerminator | ipk-server.c:142 | the warning of checkProtocolHeader followed by the warning for an unknown command still hides the terminator line |
| Client.NextLine | ipk-client.c:188-189 | bzero + readLine: the buffer holds the next framed line as a C string |
| Client.IsTerminator | ipk-client.c:191 | `strcmp(buffer, PROTOCOL_END) == 0` exactly for the terminator |
| Client.ReceiveResponse | ipk-client.c:186-195 | the loop prints `Receive(input).lines`, each followed by a newline, and stops right after the terminator |
| Client.RunClient | ipk-client.c:177-195 | sends `Encode(req)`, then prints what `Receive` prints |

## Left out

- Sockets are not modelled: `socket`, `bind`, `listen`, `accept`, `connect`, `gethostbyname`, `close`. A connection is a pair of character sequences.
- Port and host name are not modelled: `atoi` and `gethostbyname` do not enter the protocol. `Request` holds only the token and the login.
- The `fork` and accept loop of the server are not modelled. Each session is modelled alone; they share nothing.
- `getpwnam`, `getpwent` and `endpwent` are not modelled. They are replaced by an abstract database sequence in enumeration order.
- `getopt` is not modelled. The options arrive already split into letter and argument.
- A missing option argument is assumed to be reported by `getopt` as an unknown option. It is not modelled separately.
- `perror` and `exit` become an `Err(ARG_ERR)` result. `printf` becomes the `printed` sequence.
- Failing writes (`WRITE_ERR` then `exit`) are not modelled: `Write` always succeeds.
- Wire.Connection.ReadChar: a `read` returning 0 (end of stream) is treated as a failed read. The C code stores an uninitialised character there.
- Server.ReadPayload: only the one-read case is modelled: the raw `read` gets `min(255, |rest|)` characters. How TCP splits the payload across segments is not modelled. With nothing pending the program's `read` blocks, and the model has no blocking: there it returns the empty payload. An empty login for `-n`, `-f` or `-l` makes the client's `sendSimple` write nothing, so the real server waits for ever and the client waits for its answer. The model's answer to an empty payload does not happen in the program. `RequestParsed`, `EndToEnd` and `SelectedRequestAnswered` therefore require a non-empty login for those commands, and `EmptyLoginLeavesNothingPending` states that nothing is left to read.
- Client.Select: the six-argument form without `-l` sends an uninitialised `type` in the C code. The model refuses that option list with ARG_ERR.
- Client.SendRequest: in the six-argument form the C code sends an uninitialised `login`. The model sends the empty login.
- Client.ReceiveResponse: requires that PROTOCOL_END arrives (`TerminatorArrives`). On other inputs the C loop never ends. `ExhaustedNeverEnds` and `WarningHidesTerminator` state when that happens.
- Server.SessionOutputOf: the header half is stated one way only. The output begins with SERVER_WARNING when the header is wrong. With a correct header it can still begin with the warning (unknown command) or with the same text (a gecos field).
- The child closes the listening socket rather than the connection. This does not affect the protocol and is not modelled.
