# Mail client and server: a verified model

The repository is a small mail system. A client prints requests (LOGIN, SEND, LIST, READ, DEL, QUIT) as text, with
length-prefixed attachments; a server cuts the byte stream into chunks, parses them incrementally, stores messages as
files per user and answers; the client parses the answers. The project models the whole path and proves what it keeps.

| file | what it holds |
|---|---|
| `Text.dfy` | lines, decimal numbers (`lexical_cast`) |
| `Messages.dfy`, `Inflation.dfy`, `SendFormat.dfy` | the message format: printing, the `getline` parser, the round trip |
| `MessageParsing.dfy` | the incremental parser (`MessageParser`) and the factory |
| `Framing.dfy` | `my_read`, `readline` and the receive loop of `handleClient` |
| `Wire.dfy`, `Delivery.dfy` | reader and parser together: what the bytes of one request, and of many, do |
| `Agreement.dfy` | the incremental parser against `inflate`, on chunks that need not come from a printed message |
| `Truncation.dfy`, `SpoolFailures.dfy` | message files that break off, files that are no messages, names that are taken |
| `Arrival.dfy` | which printed messages come through the framing whole |
| `Failures.dfy`, `Crashes.dfy`, `EarlyDot.dfy`, `Corruption.dfy`, `EmptyAttachment.dfy` | where the code does not deliver, and what it does then |
| `Multimap.dfy`, `FileManager.dfy`, `Mailbox.dfy` | the mail spool, and its refinement to one sequence of messages per user |
| `IpList.dfy`, `Lockout.dfy` | the file of locked addresses; login attempts, locks and interleaved connections |
| `Client.dfy`, `MailServer.dfy`, `Exchange.dfy` | both ends of a connection, and the two together |
| `MailSystem.dfy` | the server with any number of clients |

How to read the main results:

- `Framing.Serve` says what a connection makes of a byte stream. `Connection.HandleClient` is the loop of the source
  over a refillable buffer, and equals `Serve` on the concatenation of whatever `read` returned, so the splitting of
  the stream into reads does not matter. `End` in `Serve` also stands for a connection that is open but has no more
  bytes yet; the delivery theorems hold for every continuation `rest`.
- `Agreement.ParsersAgreeIff` relates the two parsers of a SEND request. For any text lines and any attachment data,
  the incremental parser ends the request with exactly its last chunk, and what it dispatches are these very fields if
  and only if every size line is the length of its data with the newline.
- `Arrival.WholeIff` is the exact condition for a message to survive the wire. The bytes of a `Plain` message are one
  whole request that gives the message back if and only if every line fits the buffer and ends in no carriage return,
  no attachment is empty, and none has a carriage return just before its last byte. `Plain` excludes an early dot and an empty attachment before the last place, which make other lines of the
  message part of its framing; for those messages nothing simpler than the framing itself (`Whole`) decides, and
  `LuckyWhole` and `GapExample` are two that come through.
- `Exchange.ExchangeLockStep` is about one exchange over any mail directories: the response is the one that the
  directories and the login call for, no byte is left over and both parsers are idle again, if and only if the answer
  travels (`Travels`: an int counts the titles and every title is a wire line; the message comes through as above).
- `MailSystem.SystemRefines` is the top of the development: any number of clients connect, ask in any order and go, and
  addresses are locked and unlocked. Through printing, framing, parsing, the file store, the reply and the client's
  parser, all responses are those of a plain account that sees the same events: one sequence of messages per user, the
  sessions, and the locked addresses. `SystemFollowsLockout` takes every such run through a run of the lockout model of
  `Lockout.dfy`, so its theorems about the history of locks apply, and `GateFromHistory` reads the outcome of a LOGIN
  off that history.
- Several evident intentions are not what the code does. The code is kept as it is, and the exact condition is proved,
  with an input that fails: `SendDeliveredIff` and `WindowsFileExample` (a carriage return before the last byte of an
  attachment), `SendArrivesIff`, `WholeIff`, `FullBodyExample` and `EmptyFileExample` (lines that do not fit, empty
  attachments), `ReceiveTitlesIff` and `FullLineExample` (a title that fills the buffer), `TextEndsAgreeIff` and
  `LUCKY` (a dot among the receivers or as the title), `IndexRequestIff` (a failed conversion leaves stale chunks behind
  and the connection refuses everything from then on), `WriteAppendsIff` and `EqualTimesExample` (equal modification
  times and reused names), `MirrorIff` and `EmptyUserNameExample` (an empty user name), `SaveLoadIff` and `SpaceExample`
  (addresses that are not tokens).
- What then happens is proved as well, in one direction each. `CountRequestRefused` and `SizeRequestRefused`: a count or
  size line that is no number makes the connection refuse everything from then on. `NegativeCountCrashes` and
  `NegativeSizeCrashes`: one that is negative ends the connection with an exception. `ShiftedDelivered`,
  `ShortSendStoredLate` and `UnnamedRefused`: attachments that lost a byte in framing take one from what follows, and a
  message whose last attachment did so is refused and then stored in place of the next request; where the file name to
  take it from is empty, everything is refused. `DotTitleLost` and `DotReceiverLost`: an early dot loses the message
  when the line after it is no number; when it is one, the message may be lost or not, and `LuckyDelivered` is one that
  arrives. `EmptyLastSwallowsLine`: an empty attachment in the last place costs the line after the request.

Conventions. A byte is a `char`. `lexical_cast` accepts an optional sign and decimal digits within the range of the
target type. The directory server, the clock, generated file names, modification times and the iteration order of
directories are parameters (`Verdict`, `now`, `Slot`, `Env`). `Refused` is a ConversionException, which the server
answers with ERR; `Aborted` is the `length_error` of `vector::reserve`, which nothing catches; `Stuck` and `Hung` are
loops of the source that cannot end. `total_lines_` wraps at 32 bits. `hide` statements only remove facts from a proof.

Repaired, because the source's behaviour is undefined there: `buffer[size - 2]` with `size` 1 (guarded in `Chop`), and
the scan of `update` over an iterator it has just erased (it goes on with the next entry). Comments in
`ServerMain.cpp` and `LoginManager.cpp` give other lockout times than the code passes on (`ServerMain.cpp` sets 30*60
seconds, the constructor 60); here the time is a parameter. Old locks are removed when a connection is accepted; here
that may happen between any two events (`Sweep`).

## Model

| member | source | states |
|---|---|---|
| Text.SignedDigits | hts-ue/src/messages/ReadMessage.cpp:39-49 | digits convert to their value within the range, with or without a plus or zeros in front, and a minus gives the sign |
| Text.OnlyDigits | hts-ue/src/messages/ReadMessage.cpp:39-49 | nothing else converts |
| Text.IntBounds | hts-ue/src/messages/ReadMessage.cpp:39-49 | the first and last int, and that their neighbours do not convert |
| Messages.PrintSend | hts-ue/src/messages/SendMessage.cpp:132-168 | the printing loops produce the printed form that all round-trip theorems speak about |
| Messages.PrintedSend | hts-ue/src/messages/SendMessage.cpp:132-168 | the format of a SEND, letter by letter, on a message with several receivers, lines and attachments |
| Messages.PrintedRequests | hts-ue/src/messages/LoginMessage.cpp:19-53 | the format of the other requests, letter by letter |
| Inflation.ParseSend | hts-ue/src/messages/SendMessage.cpp:19-130 | the parsing loops, with their four outcomes: a message, ConversionException, length_error, or never returning |
| SendFormat.InflateDeflateSend | hts-ue/src/messages/SendMessage.cpp:19-168 | every storable message is read back from its printed form, whatever bytes follow; attachments may hold newlines and dots |
| SendFormat.InflateYieldsStorable | hts-ue/src/messages/SendMessage.cpp:19-130 | whatever `inflate` accepts, from any bytes, is a storable message |
| SendFormat.InflateDeflate | hts-ue/src/messages/ReadMessage.cpp:19-71 | the same round trip for every kind of request |
| SendFormat.InflateFixedBack | hts-ue/src/messages/DelMessage.cpp:19-71 | the fixed-size requests are read back from their lines |
| SendFormat.RoundTripIff | hts-ue/src/messages/SendMessage.cpp:19-168 | for all messages: reading back gives the message if and only if it is printable |
| SendFormat.KeywordDecides | hts-ue/src/messages/ListMessage.cpp:19-50 | whatever inflates as one kind of request begins with the line of its keyword |
| Truncation.TruncatedIff | hts-ue/src/messages/SendMessage.cpp:19-130 | of the proper beginnings of a printed message exactly the one that lacks only the newline behind a count of 0 inflates, and to that message |
| Truncation.TruncatedFile | hts-ue/src/ThreadedFileManager.cpp:133-163 | a message file that breaks off is read as a message, and as the one it was, exactly when only its NUL or that newline as well is missing |
| Truncation.BrokenReceivers | hts-ue/src/messages/SendMessage.cpp:40-56 | a text that breaks off among its receivers keeps the reader for ever |
| Truncation.BrokenTitle | hts-ue/src/messages/SendMessage.cpp:58-72 | so does one that breaks off in its title, unless what is there is a dot, which is taken for the end of the body |
| Truncation.BrokenBody | hts-ue/src/messages/SendMessage.cpp:61-88 | and one that breaks off in its body, unless it ends in a lone dot, which leaves no count |
| MessageParsing.DataToString | hts-ue/src/messages/MessageFactory.cpp:81-91 | chunks are glued with a newline after each |
| MessageParsing.MessageParser.Dispatch | hts-ue/src/MessageParser.cpp:129-144 | the factory call: chunks are cleared only when it returns |
| MessageParsing.MessageParser.DigestData | hts-ue/src/MessageParser.cpp:18-150 | the three-state machine refines the function `Digest` that the theorems below are about |
| MessageParsing.FramingInvariantOfRuns | hts-ue/src/MessageParser.cpp:18-150 | in every reachable state, failed conversions included, a counted read is pending only between the size line and the data of an attachment |
| MessageParsing.FixedProgress | hts-ue/src/MessageParser.cpp:64-96 | a fixed-size request ends with exactly the chunk its counter announces |
| MessageParsing.AttachmentProgress | hts-ue/src/MessageParser.cpp:97-145 | an attachment section ends with exactly the announced chunk while sizes convert |
| MessageParsing.BadSizeEndsSection | hts-ue/src/MessageParser.cpp:115-133 | a chunk ends the section early if and only if it stands in the place of a size and is no number |
| Framing.SocketReader.MyRead | hts-ue/src/readline.cpp:21-40 | hands out the stream byte by byte; buffered plus unread bytes are the remaining stream |
| Framing.BytesConcat | hts-ue/src/readline.cpp:21-40 | what the reads give is strung together, and an interrupted read gives nothing and ends nothing |
| Framing.SocketReader.ReadLine | hts-ue/src/readline.cpp:42-64 | through all three exits: payload length plus one, payload in the buffer, the exact bytes consumed |
| Framing.Connection.ReadCounted | hts-ue/src/WelcomeServer.cpp:153-161 | exactly `size` bytes, or the stream ended before |
| Framing.Chop | hts-ue/src/WelcomeServer.cpp:171-178 | the last byte goes, and a carriage return before it |
| Framing.Connection.ReceiveChunk | hts-ue/src/WelcomeServer.cpp:149-178 | one round yields the next chunk of the stream as specified |
| Framing.Connection.HandleClient | hts-ue/src/WelcomeServer.cpp:149-219 | segmentation independence: the requests seen are those of the concatenated stream |
| Wire.FrameLineIff | hts-ue/src/WelcomeServer.cpp:164-178 | a line is handed out unchanged if and only if it has no newline, fits the buffer and ends in no carriage return |
| Wire.FramesAreLines | hts-ue/src/readline.cpp:42-64 | repeated reads of lines that fit the buffer yield exactly the newline split of the stream, a carriage return at the end of a line chopped |
| Wire.FrameAtEnd | hts-ue/src/readline.cpp:42-64 | a last line without a newline comes out when the stream ends |
| Wire.FrameLong | hts-ue/src/readline.cpp:42-64 | a line too long for the buffer is cut there, and its rest is the next line |
| Wire.TextCompletes | hts-ue/src/MessageParser.cpp:64-75 | text lines keep the parser in the text, counting down, until a dot that may end it |
| Wire.AttachmentsThen | hts-ue/src/MessageParser.cpp:97-121 | attachments are framed and counted one by one, leaving exactly what follows them |
| Wire.SendCompletes | hts-ue/src/WelcomeServer.cpp:149-181 | a printed SEND is consumed exactly, and the factory gets its lines, names, sizes and chopped data |
| Wire.ServeCompletes | hts-ue/src/MessageParser.cpp:129-144 | a completed request is one step of the connection, after which serving goes on with the rest |
| Delivery.SectionInflatesIff | hts-ue/src/messages/SendMessage.cpp:74-129 | the factory gives back the fields and attachments that any chunks spell out if and only if every size is the length of its data with the newline |
| Delivery.SendFactoryIff | hts-ue/src/messages/MessageFactory.cpp:14-91 | the factory returns the message with last bytes replaced if and only if no attachment has a carriage return just before |
| Delivery.SendDeliveredIff | hts-ue/src/WelcomeServer.cpp:149-181 | end to end: the bytes of SEND are consumed exactly, and it is delivered so if and only if that condition holds, for every following stream |
| Delivery.NormaliseIdentityIff | hts-ue/src/messages/MessageFactory.cpp:81-91 | nothing at all changes if and only if every attachment ends in a newline |
| Delivery.RequestDelivered | hts-ue/src/MessageParser.cpp:18-150 | every kind of request: exact bytes, one dispatch, parser between requests afterwards |
| Delivery.RequestsDelivered | hts-ue/src/MessageParser.cpp:18-150 | any list of mixed requests: exactly those messages in order |
| Delivery.SessionDelivered | hts-ue/src/WelcomeServer.cpp:149-219 | the same for a whole connection that is closed afterwards |
| Delivery.UnterminatedDelivered | hts-ue/src/WelcomeServer.cpp:164-181 | the last line of a request other than SEND needs no newline when the connection ends there, unless it is empty |
| Delivery.StrayLineIgnored | hts-ue/src/MessageParser.cpp:25-61 | a line that is no keyword is ignored between requests, and nothing of it is kept |
| Delivery.StrayLinesIgnored | hts-ue/src/MessageParser.cpp:18-150 | any requests with any such lines before, between and after them: exactly the requests are dispatched, in order |
| Delivery.HelloExample | hts-ue/src/MessageParser.cpp:25-61 | a greeting line and then a LIST: the LIST is dispatched |
| Agreement.TextEndsAgreeIff | hts-ue/src/MessageParser.cpp:68-75 | `inflate` ends the body at the dot of the head and reads on from there; the incremental parser ends the text at that same dot if and only if no earlier dot stands from the fourth line on |
| Agreement.HeadFeeds | hts-ue/src/MessageParser.cpp:64-75 | the parser's state when the text ends there: all lines collected, counted below zero |
| Agreement.ParsersAgreeIff | hts-ue/src/MessageParser.cpp:97-144 | any request in lines ends for the incremental parser with exactly its last chunk, and what it then dispatches is what the lines, count, names and sizes say if and only if the data has the announced lengths |
| Arrival.OnlyWireGathered | hts-ue/src/MessageParser.cpp:18-150 | a plain message whose chunks build it again has only lines that fit and attachments that are neither empty nor cut short, whatever bytes follow |
| Arrival.WholeIff | hts-ue/src/WelcomeServer.cpp:149-181 | a plain message's own bytes are one whole request that gives it back if and only if it is so |
| Arrival.SendArrivesIff | hts-ue/src/WelcomeServer.cpp:149-181 | over a connection, with any bytes behind: a plain message is delivered and consumed exactly if and only if it is so |
| Arrival.EmptyFileExample | hts-ue/src/MessageParser.cpp:113-121 | the smallest message with an empty attachment, which does not come through |
| Arrival.FullBodyExample | hts-ue/src/readline.cpp:42-64 | a message with a body line that fills the buffer, which does not come through |
| Failures.HopelessForever | hts-ue/src/MessageParser.cpp:88-93 | stale chunks no factory call can convert: no stream ever dispatches a message again |
| Failures.IndexRequestIff | hts-ue/src/messages/ReadMessage.cpp:39-49 | READ or DEL: the connection goes on if and only if the index converts; else this and everything later is refused |
| Failures.CountRequestRefused | hts-ue/src/MessageParser.cpp:123-144 | a count line that is no number: this request and everything later is refused |
| Failures.SizeRequestRefused | hts-ue/src/MessageParser.cpp:115-144 | a size line that is no number, after any attachments: this request and everything later is refused |
| Crashes.NegativeSizeCrashes | hts-ue/src/WelcomeServer.cpp:153-161 | a negative size line, after any attachments: the next read ends in an exception, and nothing is answered |
| Crashes.NegativeSizeInflates | hts-ue/src/messages/SendMessage.cpp:100-117 | in a stored message, too, a negative size ends in an exception |
| Crashes.NegativeCountSilent | hts-ue/src/messages/SendMessage.cpp:74-88 | a negative count line: nothing that follows on the connection is ever answered |
| Crashes.NegativeCountCrashes | hts-ue/src/MessageParser.cpp:97-144 | when the next line is no number or 0, the exception comes with that line |
| EarlyDot.DotTitleLost | hts-ue/src/MessageParser.cpp:70-74 | a dot as title, with a receiver and no number after it: refused or hung, never delivered |
| EarlyDot.DotReceiverLost | hts-ue/src/messages/SendMessage.cpp:44-56 | a dot as third or later receiver with no number after it: the connection hangs, whatever follows |
| EarlyDot.LuckyDelivered | hts-ue/src/MessageParser.cpp:70-121 | a message with a dot as title that is delivered all the same, so the dot condition is not necessary for delivery |
| EarlyDot.LuckyWhole | hts-ue/src/client/ResponseParser.cpp:116-137 | READ brings that message back as well |
| Corruption.ShiftedFactory | hts-ue/src/messages/SendMessage.cpp:91-129 | what the factory makes of attachments that are a byte short, alone or with later chunks behind: each takes a byte of what follows |
| Corruption.ShiftedDelivered | hts-ue/src/WelcomeServer.cpp:171-178 | with a last attachment that is not short, the shifted message is delivered at once |
| Corruption.ShortSendStoredLate | hts-ue/src/MessageParser.cpp:135-144 | with a short last attachment the SEND is refused, and stored, with one letter of the next keyword in it, in place of the next request |
| Corruption.UnnamedRefused | hts-ue/src/messages/SendMessage.cpp:91-129 | an empty file name after an attachment that is a byte short, and data that do not begin with a number: this request and everything later is refused |
| Corruption.WindowsFileExample | hts-ue/src/WelcomeServer.cpp:171-178 | a message that is refused and stored late: an attached line with a Windows line end |
| EmptyAttachment.EmptyLastSwallowsLine | hts-ue/src/MessageParser.cpp:113-121 | an empty attachment in the last place: the message arrives, and the line after the request is lost |
| EmptyAttachment.GapExample | hts-ue/src/MessageParser.cpp:97-144 | an empty attachment before the last place that does no harm |
| FileManager.ThreadedFileManager.PersistSendMessage | hts-ue/src/ThreadedFileManager.cpp:52-76 | receiver by receiver, up to the first failure |
| FileManager.ThreadedFileManager.GetMessageList | hts-ue/src/ThreadedFileManager.cpp:79-131 | titles in multimap order; the first unreadable file decides the failure |
| FileManager.ThreadedFileManager.GetMessageAtIndex | hts-ue/src/ThreadedFileManager.cpp:196-238 | the file at an index of the multimap order, or none |
| FileManager.ThreadedFileManager.GetMessageForRead | hts-ue/src/ThreadedFileManager.cpp:133-163 | the message in that file |
| FileManager.ThreadedFileManager.RemoveFile | hts-ue/src/ThreadedFileManager.cpp:165-194 | that file is removed; an invalid index changes nothing and fails |
| Mailbox.SortFilesIsStableSort | hts-ue/src/ThreadedFileManager.cpp:207-220 | the order is a permutation of the regular files, sorted by time and stable |
| Mailbox.ListAndIndexAgree | hts-ue/src/ThreadedFileManager.cpp:97-163 | in every directory: the list succeeds if and only if every regular file can be read, entry i of it is then the title of the message index i reads, and no other index reads anything |
| Mailbox.RemoveAtIndex | hts-ue/src/ThreadedFileManager.cpp:174-180 | deleting by index removes exactly that element of the order |
| Mailbox.WriteAppendsIff | hts-ue/src/ThreadedFileManager.cpp:63-67 | persisting appends to the order if and only if the name is new and no other file is listed behind the new one |
| Mailbox.EqualTimesExample | hts-ue/src/ThreadedFileManager.cpp:207-220 | a directory where a new file of equal time is not listed last |
| Mailbox.StepRefines | hts-ue/src/ThreadedFileManager.cpp:52-238 | each operation answers and changes what it does on one plain sequence per user |
| Mailbox.RunRefines | hts-ue/src/ThreadedFileManager.cpp:52-238 | the same over whole runs |
| Mailbox.AppendAllCounts | hts-ue/src/ThreadedFileManager.cpp:54-75 | a box grows by one per occurrence of its user in the receiver list; other boxes do not change |
| SpoolFailures.FirstBadFile | hts-ue/src/ThreadedFileManager.cpp:97-131 | the first regular file that is no message decides how a listing fails |
| SpoolFailures.ListOfBadFiles | hts-ue/src/MailServer.cpp:144-170 | the reply to LIST then: an empty list when that file does not convert, and for a user without a directory; else the thread is gone |
| SpoolFailures.ReadOfAnyFile | hts-ue/src/MailServer.cpp:172-193 | the reply to READ in any directory: the file at that place of the order alone decides |
| SpoolFailures.TakenNameReplaces | hts-ue/src/ThreadedFileManager.cpp:265-295 | a generated name that a message already has: that message is replaced and nothing else changes |
| SpoolFailures.PersistStops | hts-ue/src/ThreadedFileManager.cpp:52-76 | when the file of one receiver cannot be written, SEND is answered ERR; the receivers before it keep the message, those after it get nothing |
| IpList.SaveIpFile | hts-ue/src/ThreadedFileManager.cpp:380-405 | one line per entry, every entry once, in the order of the keys |
| IpList.KeyOrderExamples | hts-ue/src/ThreadedFileManager.cpp:380-405 | the order of the keys, byte by byte with a prefix first |
| IpList.LoadIpFile | hts-ue/src/ThreadedFileManager.cpp:319-378 | line splitting, tokenising and conversion, with the cases that return an empty map or are undefined |
| IpList.LoadGoodLines | hts-ue/src/ThreadedFileManager.cpp:319-378 | a file of good lines: every address in it, with the time of its first line; a text behind the last newline is ignored |
| IpList.LoadBadLine | hts-ue/src/ThreadedFileManager.cpp:345-372 | the first bad line decides: no time in the second place empties the map, fewer than two words are undefined |
| IpList.Words | hts-ue/src/ThreadedFileManager.cpp:350-358 | words are what stands between spaces, however many |
| IpList.SaveLoadIff | hts-ue/src/ThreadedFileManager.cpp:319-405 | loading what was saved returns the map if and only if every address is a nonempty token |
| IpList.SpaceExample | hts-ue/src/ThreadedFileManager.cpp:340-372 | an address with a space is not read back |
| Lockout.ClientRestrictionManager.Update | hts-ue/src/ClientRestrictionManager.cpp:32-49 | exactly the entries older than the limit are removed |
| Lockout.ClientRestrictionManager.Lock | hts-ue/src/ClientRestrictionManager.cpp:56-63 | an address that is locked keeps its time |
| Lockout.ClientRestrictionManager.IsLocked | hts-ue/src/ClientRestrictionManager.cpp:65-81 | the scan finds the address if and only if it is locked |
| Lockout.ClientInfo.LoginFailed | hts-ue/src/ClientInfo.cpp:24-32 | the counter, and the lock from the limit on |
| Lockout.ThirdFailureLocks | hts-ue/src/ClientInfo.cpp:24-32 | over runs: after two failures in a row a further one, of either kind, leaves the address locked; after fewer it changes no lock |
| Lockout.FailureAndLogin | hts-ue/src/LoginManager.cpp:155-185 | a failure counts, and a wrong password ends an earlier login while an unknown user name does not |
| Lockout.OtherOutcomes | hts-ue/src/LoginManager.cpp:101-191 | an accepted login starts the count again, and an unreachable directory server changes nothing |
| Lockout.LoginManager.SendLDAPRequest | hts-ue/src/LoginManager.cpp:101-191 | the login without interference, for every answer of the directory server |
| Lockout.LoginIsTwoSteps | hts-ue/src/LoginManager.cpp:126-191 | check and outcome in sequence are that login |
| Lockout.CountersAreHistory | hts-ue/src/ClientInfo.cpp:24-37 | over interleaved runs a counter is the number of failures since the last success |
| Lockout.NewLockJustified | hts-ue/src/ClientInfo.cpp:24-42 | an action newly locks an address if and only if it is a third or later failure in a row on a connection from it |
| Lockout.LockedIff | hts-ue/src/ClientRestrictionManager.cpp:32-81 | an address is locked since a time if and only if it was loaded or so locked then, and no update has since seen more than the limit |
| Lockout.OutcomeWasLetThrough | hts-ue/src/LoginManager.cpp:126-191 | no answer is acted upon unless the connection was let through while its address was not locked |
| Client.SendSocket.Transmit | hts-ue/src/client/Client.cpp:31-63 | the request goes out in order without repeats, completely if and only if enough is taken before the first failure, however often the sends are interrupted |
| Client.CapacityInterrupted | hts-ue/src/client/Client.cpp:41-52 | an interrupted send is tried again and takes nothing away |
| Client.CapacityFailed | hts-ue/src/client/Client.cpp:41-52 | a failed send is the last one |
| Client.CapacityAdds | hts-ue/src/client/Client.cpp:41-60 | sends that take bytes add up |
| Client.ParseTitles | hts-ue/src/client/responses/ListResponse.cpp:16-39 | the counted list parser, which never returns on a negative count |
| Client.ResponseParser.DigestData | hts-ue/src/client/ResponseParser.cpp:10-157 | the response state machine refines the function the theorems below are about |
| Client.ReceiveAnyLine | hts-ue/src/client/ResponseParser.cpp:14-40 | in answer to SEND, DEL, LOGIN and QUIT, OK is success and every other line is failure |
| Client.ReceiveOtherLine | hts-ue/src/client/ResponseParser.cpp:41-115 | READ goes on behind OK only; LIST fails on a count that does not convert and never ends on a negative one |
| Client.ReceiveCounted | hts-ue/src/client/ResponseParser.cpp:41-115 | LIST on any bytes behind any count line that converts: exactly that many lines as they are framed are the response |
| Client.ReceiveList | hts-ue/src/client/ResponseParser.cpp:41-115 | after the count line the client takes exactly that many lines as they are framed, whatever the titles were |
| Client.ReceiveTitles | hts-ue/src/client/responses/ListResponse.cpp:16-39 | wire-line titles arrive whatever bytes follow, and leave those |
| Client.ReceiveTitlesIff | hts-ue/src/client/ResponseParser.cpp:41-115 | a list reply yields the server's titles and leaves no byte over if and only if an int can count them and every title is a wire line |
| Client.FullLineLeavesNewline | hts-ue/src/readline.cpp:42-64 | a title that fills the buffer arrives, but its newline is left for the next response |
| Client.FullLineExample | hts-ue/src/client/Client.cpp:65-81 | such a title for the buffer of the programs |
| Client.ReceiveMail | hts-ue/src/client/ResponseParser.cpp:116-137 | inside READ the embedded parser sees the bytes as a server connection would, and the response is what its factory builds |
| Client.ReceiveGathered | hts-ue/src/client/ResponseParser.cpp:116-137 | for every stream: the response to READ is what is built from the chunks the embedded parser gathers, or none |
| Client.ReceiveReadIff | hts-ue/src/client/Client.cpp:65-126 | a READ reply with any bytes behind yields a plain message with last bytes replaced, and leaves those bytes, if and only if every line fits and no attachment is empty or cut short |
| Client.ReadArrivesIff | hts-ue/src/client/Client.cpp:65-126 | for every message at all: the reply to READ arrives as sent, with no byte over, if and only if the message comes through the framing whole |
| Client.UserManager.StartLogin | hts-ue/src/client/UserManager.cpp:26-29 | the user name of a login under way |
| Client.UserManager.DidReceiveResponse | hts-ue/src/client/Client.cpp:128-151 | OK and ERR change the login only while one is under way |
| MailServer.MailServer.MessageReceived | hts-ue/src/MailServer.cpp:72-110 | the login gate and all handlers refine the function `Handle` |
| MailServer.MailServer.ReplyToList | hts-ue/src/MailServer.cpp:144-170 | the list reply: count line and titles, empty on a file error |
| MailServer.MailServer.ReplyToRead | hts-ue/src/MailServer.cpp:172-193 | the read reply: OK and the printed message, or ERR |
| MailServer.LoginGate | hts-ue/src/MailServer.cpp:57-110 | over whole connections, among any changes by others: without an accepted LOGIN no request of this one changes a mailbox and every reply is a refusal |
| MailServer.FirstLoginAnswered | hts-ue/src/MailServer.cpp:219-240 | the first accepted LOGIN is answered OK, if the connection gets that far |
| MailServer.RefusedAnswered | hts-ue/src/MailServer.cpp:57-70 | logged in or not, a request that does not convert is answered ERR and changes nothing |
| MailServer.RefusedSkipped | hts-ue/src/MailServer.cpp:57-70 | the requests after it are answered as if it had not been there |
| Exchange.NormaliseSettles | hts-ue/src/client/Client.cpp:89-100 | one trip over the wire settles a message: a second one changes nothing |
| Exchange.ReplyReceivedIff | hts-ue/src/client/ResponseParser.cpp:10-143 | every reply, whatever is stored, reaches the client as the answer to its request, with no byte left over, if and only if that answer travels |
| Exchange.ExchangeLockStep | hts-ue/src/client/ResponseParser.cpp:10-157 | over any mail directories: the server's new state, and one response, the answer, with both parsers idle again, if and only if the answer travels; none only when the server closes the connection or dies |
| Exchange.LockedOutClosed | hts-ue/src/MailServer.cpp:228-235 | a lockout closes the connection without a response and without changing mailboxes |
| Exchange.BadIndexAnswered | hts-ue/src/client/ResponseParser.cpp:116-143 | READ or DEL with any text that is no number as index: the client gets an error and the server is unchanged |
| Exchange.LoginNames | hts-ue/src/client/Client.cpp:128-151 | the name a client goes by after a LOGIN that is accepted, refused, or answered by closing the connection |
| Exchange.UserKept | hts-ue/src/client/Client.cpp:128-151 | no other request, and no response to it, changes a client that is logged in |
| Exchange.FailedLogin | hts-ue/src/MailServer.cpp:219-240 | a failed LOGIN by number: ERR and no lock with fewer than two failures before, else the lock and a closed connection |
| Exchange.OtherLogin | hts-ue/src/MailServer.cpp:219-240 | a LOGIN that is accepted, not answered by the directory server, or from a locked address |
| Exchange.ThreeStrikes | hts-ue/src/ClientInfo.cpp:24-42 | three failed logins of a new connection: ERR, ERR, and a closed connection with the address locked |
| Exchange.LoggedOutAfterWrongPassword | hts-ue/src/LoginManager.cpp:176-185 | after a wrong password every request is refused until the next accepted LOGIN |
| Exchange.MirrorIff | hts-ue/src/client/Client.cpp:128-151 | after an exchange the menus allow, whatever its answer, client and server agree about the login if and only if the user name of a successful LOGIN was not empty |
| Exchange.EmptyUserNameExample | hts-ue/src/client/Client.cpp:128-151 | the login with an empty user name that leaves the client logged out |
| Exchange.AnswerExpected | hts-ue/src/MailServer.cpp:72-240 | on sane directories the answer, the new directories, the session and the locks are what is expected of plain sequences and a login |
| Exchange.ExchangeRefines | hts-ue/src/client/Client.cpp:277-298 | one exchange on those sequences: contents, session, locks and response, stored messages settled or not |
| Exchange.SettledTravels | hts-ue/src/MailServer.cpp:144-193 | from settled messages every answer travels, and READ gives back what is stored |
| MailSystem.SystemRefines | hts-ue/src/WelcomeServer.cpp:90-222 | any number of clients, any interleaving of exchanges, connections and unlocking: all responses, boxes, sessions and locks are those of a plain account that sees the same events |
| MailSystem.SystemStaysSettled | hts-ue/src/MailServer.cpp:112-142 | settled sequences stay settled over such runs |
| MailSystem.SystemFollowsLockout | hts-ue/src/LoginManager.cpp:101-191 | the locks and sessions of such a run are those of a run of the lockout model, each LOGIN being its two steps |
| MailSystem.GateFromHistory | hts-ue/src/MailServer.cpp:219-240 | the outcome of a LOGIN is decided by whether the address is locked, the directory server's answer, and the failures in a row in that history |
| MailSystem.MenusKeepMirror | hts-ue/src/client/Client.cpp:277-426 | over such runs, clients that keep to their menus and give user names agree with the server about their login |
| MailSystem.NamesKept | hts-ue/src/client/UserManager.cpp:16-45 | over such runs a client that is logged in goes by the name of its last accepted LOGIN, and the others by none |

## Left out

- Framing.Connection.ReadCounted: at the end of the stream inside a counted read the source goes on with whatever its buffer held; here the run ends there (`Short`).
- Framing.Connection.HandleClient: after the server closes a socket, bytes already buffered are still digested by the source; interruption of the thread and read errors other than EINTR are not modelled.
- Framing.SocketReader.MyRead: the static buffer shared by all connections is one buffer per connection here.
- MessageParsing.MessageParser.DigestData: the delegate call is a returned `Step`; allocation failures for very large counts and sizes are not modelled.
- Lockout.ClientRestrictionManager.Update: the erased iterator is repaired; entries are visited in no particular order.
- FileManager.ThreadedFileManager.PersistSendMessage: user names are map keys, so names that denote other paths are not modelled; mkdir, permissions and disk errors other than a name taken by a directory do not occur; the generated names are parameters.
- Client.ResponseParser.DigestData: the responses go to the caller rather than to a delegate.
- MailSystem.SystemRefines: an exchange is one step, so other connections act between exchanges and not inside one (a LOGIN in two steps is in `Lockout`); new files are listed last, answers travel, and the requests of the clients do.
- Exchange.ExchangeLockStep: for a stored message with an early dot, or an empty attachment before the last, the condition is that its own framing brings it back, and not a simpler one.
- Arrival.SendArrivesIff: an empty attachment in the last place, where what happens depends on the bytes behind, is in `EmptyAttachment` instead.
- EmptyAttachment.EmptyLastSwallowsLine: what an empty attachment before the last place does is shown by one example only.
- Corruption.ShiftedFactory: an empty file name after a short attachment is in `UnnamedRefused`; when the data behind it begin with a number, what is read then is not treated.
- `Server::sendMsg` restarts a partial send from the beginning; a reply is one atomic append here.
- The greeting byte and the refusal of locked addresses at connection time.
- Sockets, threads, signals, `ServerMain.cpp`, `ClientMain.cpp`, client menus and the saving of attachments.
- LDAP itself: its answer is the parameter `Verdict`; the fixed-size filter buffer is not modelled.
- Named mutexes: each file operation is one atomic step.
- `MessageIdGenerator`, `Singleton`, path handling, exception classes, `readn`: no property of the mail path rests on them beyond the parameters above.
