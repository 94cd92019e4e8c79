# LocalChat: a verified model of sessions, transfers, queue and tables

LocalChat is a peer-to-peer chat for the local network. Peers find each other, open one TCP
session per pair, exchange chat lines, and send each other files after the receiver has agreed.
This project models its wire protocol, its connection handshake, its mailbox queue, its broker
and its discovery tables in Dafny, and proves what they are for:

- a file that is sent arrives byte for byte, whatever lay at the destination before, and exactly
  for which sizes that is so (`EndToEnd`, on top of `Wire`, `Sender`, `Session`, `SessionObject`,
  `Stream`, `App`);
- any number of transfers may arrive on as many sessions at once and share the mailbox, and exactly
  when they disturb each other (`Interference`, `Arrival`);
- the session parser undoes the frame writers for every script of frames and transfers, keeping
  exactly one read outstanding (`Session`, `Stream`), and exactly the typed lines that are messages
  arrive as chat (`Console`);
- in every run of any number of peers the handshake leaves both ends, and both tables of every
  manager, in agreement (`Tables`, `Handshake`, and `HandshakeWire` for the bytes), and exactly how
  long its 16-bit ids allow that (`HandshakeIds`);
- no file leaves a peer without the consent of the user it was offered to, exactly as long as peer
  names cannot be confused (`Consent` for one sender, `ConsentNetwork` for all peers on top of the
  connections);
- under every interleaving the two-lock queue is a first-in first-out sequence (`Queue`);
- the broker delivers exactly what is subscribed, its 8-bit id allocator fails exactly when all slots
  are taken (`Broker`), and exactly when every handler still finds the data of the messages it is
  called for (`SharedMessages`);
- browse records survive the padded buffer and the hand-written linked list (`LinkedList`,
  `Browse`), and exactly which peers are dialled through them (`Discovery`).

`Bytes` holds byte strings, fixed-width integers and their in-memory form. Objects that the
program updates in place are classes (`FileTransferContext`, `TcpSession`, `Client`,
`ConnectionManager`, `TransferDesk`, `MessageBroker`, `List`, `ChatInput`); each method is proved
against a function of the old state, and the properties are proved about those functions. Concurrent
and distributed behaviour is a state machine whose every run is considered.
`dafny verify dfyconfig.toml` checks the whole project.

## Assumptions

- A connection is a reliable, ordered byte stream (section 2.2 of RFC 9293).
- `async_read` completes with exactly the bytes asked for, and only after the current handler has
  returned. There is one I/O thread, so a handler is one step.
- A write takes its bytes when it is called (`writeBuf` is erased right after the HELLOBACK write,
  src/BVTCPSession.cpp:73-74).
- No other frame is written on a session between BEGIN and END (include/BVTCPCommon.hpp:295-297).
- Multi-byte fields are copied with `memcpy`; both hosts are taken to be little-endian.
- Peers are honest: each runs this program and sends only what it writes.
- Clock readings are a parameter, and so is what the file system refuses: paths that cannot be opened
  (`blocked`), that take no data (`full`) or that cannot be resized (`stuck`). A refused write leaves
  the file as it was. The output stream holds back less data than its `buffer` until the file is
  closed; only a refusal it meets before that is noticed.
- `Discovery` is about Bonjour: the name that is resolved is the one read from the browse record, and
  a name resolves if a peer is registered under it. Service type and domain are short and without
  spaces. On Avahi the name comes from the resolver's callback, and this module does not apply.
- In `Handshake` and `ConsentNetwork` peers know each other by their own names. A resolved peer is
  dialled only if it is not among the nodes yet, so a peer whose connection failed is dialled again
  only after it has deregistered.
- A missing entry and a null entry of the broker's mailbox map are the same thing; the program never
  tells them apart.
- `RemoveSession` takes a session out of the tables; the object lives on as long as its read is
  outstanding, and can still take part in the handshake.

## Where the code differs from what it says

The code is followed; each difference is a proved statement.

- The size limit is not the 2 GB the constants suggest. `bytesSent + csize` is 32 bits wide and
  wraps above 4,294,328,220 bytes: the last chunk then goes out as an ordinary chunk, no END follows
  and the worker spins. From 2^32 on the announced size is truncated, and only that much arrives
  (`LargeFileIsCut`). An empty file sends BEGIN and no END. A file is delivered if and only if its
  size is between 1 and that limit (`DeliveredExactlyWhenSendable`).
- The chunk-size table leaves out 1000..1024 and the exact thresholds, which fall through to the
  largest chunk (`SingleFrameSizes`).
- Correlation keys are counted per sender, so two senders produce equal keys. Two transfers arrive in
  every order of their events if and only if their keys differ (`IntactInEveryOrderExactly`).
- Session ids are 16 bits wide: the two tables of a peer agree in every run in which it issues at most
  n ids if and only if it has at most one other peer, or n <= 65536, or n = 65537 and all the others
  are on one side of it in the name order (`AgreeExactly`).
  Offer keys are 32 bits wide: every history of n offers starts each key at most once if and only if
  n <= 2^32 (`StartsOnceExactlyUpToKeySpace`).
- The answer to an offer goes to the peer whose name is read from the offer's text up to the first
  bar, and that peer looks at the bare key. A peer named "A|B" can so make peer "A" send a file nobody
  has seen offered. Every run is consented to if and only if no two names can be confused in this way
  before a third peer (`ConsentedExactly`).
- The last write of a transfer is not checked, and an earlier one only as far as the stream has got. On
  a path that takes no data a file is taken for received although it holds zeros, unless it has more
  than one frame and its chunks reach the stream's buffer (`FinishedMeansIntactExactly`); with a
  buffer above 4096 bytes that is every file below 64,000 bytes (`SmallFilesLostSilently`).
- Browse records drop spaces and empty names of 24 bytes or more, and a changed name never resolves to its
  own peer. Of two peers exactly one dials if and only if the larger name comes through its record unchanged;
  otherwise neither does (`ExactlyOneDialsIff`, `EveryPairDialsExactly`).
- The broker shares one message object among all subscribers, and the first handler moves its data
  out. Every handler finds its data if and only if no message has two subscribers
  (`EveryHandlerSeesExactly`).
- Every established frame is put to two tests, chat type at byte 9 and file type at byte 12. When
  both fire is stated exactly (`ChatDispatchExact`, `FileDispatchExact`).
- The HELLO check reads the type through a native struct and looks at the payload
  (`HelloAnsweredExactly`).
- A "service|name" text of 117 bytes or more loses its terminator (`FileTextExact`); the original
  then reads past its buffer, which the model records as `Overrun`.
- The broker's counter guard compares an 8-bit counter with 256 and can never fire; the slot search
  does the work (`AttachExactly`, `FullCounterReadsZero`).

## Model

| member | source | states |
|---|---|---|
| `Wire.MsgFrameRoundTrip` | include/BVTCPSession.hpp:318-326 | for every header and payload, reading a written message frame gives both back |
| `Wire.FileFrameRoundTrip` | include/BVTCPSession.hpp:328-356 | for all 32- and 64-bit fields and every payload and length, reading a written file frame gives the header and the payload padded or cut to the length |
| `Wire.SizesRoundTrip` | src/BVTCPSession.cpp:293-297 | unpacking the BEGIN metadata returns chunk size and file size although the file-size mask is 36 bits wide |
| `Wire.SizesRoundTripBits` | include/BVFileTransferContext.hpp:86-86 | the same on 64-bit words with the shifts, masks and the 32-bit cast of the code |
| `Wire.GetFileText` | include/BVTCPSession.hpp:340-348 | the loop collects exactly the text before the first NUL after the header, or reports that there is none |
| `Wire.FileTextExact` | include/BVFileTransferContext.hpp:80-103 | a text survives the frame if and only if it is shorter than 117 bytes; otherwise its terminator is cut off |
| `Wire.FileFrameLayout` | include/BVTCPSession.hpp:497-522 | where key, time, type, the two halves of the metadata and the payload lie in a file frame, for all values |
| `Wire.BeginOnTheWire` | include/BVFileTransferContext.hpp:77-103 | the BEGIN frame byte by byte: type 6 at 12, file size at 13, chunk size at 17, "service, bar, name, NUL" from 21 on |
| `Wire.OfferOnTheWire` | include/BVTCPSession.hpp:542-552 | the OFFER frame byte by byte: type 9, file size at 13 |
| `Wire.VerdictOnTheWire` | include/BVTCPSession.hpp:555-561 | the verdict frame byte by byte: type 10 for ACCEPT and 11 for REJECT |
| `Wire.DataOnTheWire` | include/BVFileTransferContext.hpp:120-146 | a data frame byte by byte: type 8 on the last and 7 on the others |
| `Wire.ChatOnTheWire` | src/BVApp_ConsoleClient.cpp:1030-1050 | a chat frame byte by byte: length at 0, type 5 at 9, text from 10 on |
| `Sender.ChunkSize` | include/BVFileTransferContext.hpp:163-193 | every size gets a chunk between 64 and 1,048,676 bytes |
| `Sender.FileTransferContext.TransferNextChunk` | include/BVFileTransferContext.hpp:73-161 | each call keeps the wire equal to BEGIN plus the frames so far, keeps the counter equal to the file position modulo 2^32, and advances by one chunk unless it stops |
| `Sender.FileTransferContext.TransferData` | include/BVFileTransferContext.hpp:112-160 | a later call reads one chunk, writes it as CHUNK or END, and leaves the rest of the work as specified |
| `Sender.FileTransferContext.Launch` | include/BVFileTransferContext.hpp:223-233 | the loop writes exactly the specified bytes and frames, counts what it read modulo 2^32, and stays running exactly in the spinning case |
| `Sender.WorkComplete` | include/BVFileTransferContext.hpp:112-160 | from every chunk boundary on, the worker stops, ends with END, reads the rest of the file and emits ceil(rest/chunk) frames whose payloads are the rest padded with zeros |
| `Sender.SenderCompletes` | include/BVFileTransferContext.hpp:112-160 | for every size from 1 to 4,294,328,220: ceil(size/chunk) data frames, END exactly on the last, the whole file counted, payloads equal to the content plus fewer zeros than a chunk |
| `Sender.FramesExactly` | include/BVFileTransferContext.hpp:112-160 | every data frame of a sendable file: its chunk padded with zeros, its own clock reading, END on the last alone |
| `Sender.SendWholeFile` | include/BVFileTransferContext.hpp:223-233 | the object itself ends stopped, with that number of frames, END last, and `bytesSent` equal to the size |
| `Sender.WrappedNeverEnds` | include/BVFileTransferContext.hpp:121-121 | for every size between the limit and 2^32 no END is sent and the worker never stops |
| `Sender.EndsExactlyWhenSendable` | include/BVFileTransferContext.hpp:112-160 | a transfer announces its true size and ends if and only if the size is between 1 and the limit |
| `Sender.FrameCountBounds` | include/BVFileTransferContext.hpp:163-193 | counted on the frames the loop emits: at most 16 below 5,000,000 bytes, 1908 up to 2,000,000,000, 4095 for any sendable size |
| `Sender.FrameCountsExact` | include/BVFileTransferContext.hpp:163-193 | for every size, the emitted frames just hold the file in chunks of 64, 256, 512, 4096, 32768, 65536, 524288 or 1048676 bytes by its range, gaps included |
| `Sender.SingleFrameSizes` | include/BVFileTransferContext.hpp:169-190 | below 5,000,000 bytes, exactly which sizes travel in one data frame, the gaps of the table among them |
| `Session.FrameRearmsExactly` | include/BVTCPSession.hpp:135-198 | in every live state and for every 138 bytes, how many reads are left: exactly one of the right length after a well-formed frame, none on a closed duplicate, and the exact number otherwise |
| `Session.ChunkRearms` | include/BVTCPSession.hpp:82-133 | every chunk leaves exactly one read, for a frame if and only if it was an END |
| `Session.ReceiveKeepsOneRead` | include/BVTCPSession.hpp:82-252 | over every stream of well-formed frames and arbitrary chunks, from handshake to close, exactly one read of the right length is outstanding, and none after close |
| `Session.ChatDispatchExact` | src/BVTCPSession.cpp:184-264 | every chat frame passes the chat test, and passes the file test if and only if its third character is one of four type codes |
| `Session.FileDispatchExact` | src/BVTCPSession.cpp:184-264 | every file frame passes the file test, and passes the chat test if and only if bits 40..47 of its timestamp are 5 |
| `Session.ClockClearExactly` | src/BVTCPSession.cpp:194-262 | all timestamps below n are clear of the chat type if and only if n <= 5*2^40 |
| `SessionObject.TcpSession.StartReadingChunks` | include/BVTCPSession.hpp:208-252 | one more read of csize+21 bytes is outstanding unless that sum wraps to zero |
| `SessionObject.TcpSession.OnReceiveHelloBackFrame` | src/BVTCPSession.cpp:78-115 | refines the specified reaction: established and re-armed, closed as a duplicate, or nothing when the length is out of range |
| `SessionObject.TcpSession.OnReceiveFileTransferBegin` | src/BVTCPSession.cpp:281-315 | takes over both sizes, posts BEGIN, allocates the chunk buffer before it arms a chunk read |
| `SessionObject.TcpSession.OnReceiveStandardFrame` | src/BVTCPSession.cpp:184-264 | the two tests in sequence do what the specification of one frame says |
| `SessionObject.TcpSession.ReadMessageFrameCallback` | include/BVTCPSession.hpp:135-198 | one completed frame read in place refines one step of the parser and keeps every buffer large enough for its read |
| `SessionObject.TcpSession.ReadFileChunkCallback` | include/BVTCPSession.hpp:82-133 | one completed chunk read in place refines one step of the parser |
| `SessionObject.TcpSession.Pump` | include/BVTCPSession.hpp:82-252 | the event loop on any byte stream ends in the state, and with the rest of the bytes, that the parser function gives |
| `Stream.ChatUnderstood` | src/BVTCPSession.cpp:149-181 | a chat frame posts its text cut to 128 bytes and its time, and re-arms one frame read |
| `Stream.OfferUnderstood` | include/BVTCPSession.hpp:542-552 | an offer frame posts exactly the key, size, service and file name it was written with |
| `Stream.AnswerUnderstood` | include/BVTCPSession.hpp:555-561 | a verdict frame signals exactly its key and verdict |
| `Stream.BeginUnderstood` | src/BVTCPSession.cpp:281-315 | a BEGIN frame switches the receiver to chunks of the sender's size |
| `Stream.ReceiveData` | src/BVTCPSession.cpp:317-367 | any run of data frames is read on its boundaries, one event each, and END alone returns to frames |
| `Stream.ReceiveTransfer` | include/BVTCPSession.hpp:82-252 | a whole transfer of any size is read completely; the receiver is back at frames exactly if an END was written |
| `Stream.ParserUndoesPrinter` | include/BVTCPSession.hpp:82-252 | for every script of chat, offers, answers and whole transfers: all bytes consumed, exactly its events in order, ready for the next frame |
| `Console.ChatInput.HandleChatKey` | src/BVApp_ConsoleClient.cpp:222-259 | the line after each key, and what Enter makes of it: leave, refresh, a file to offer, or a message |
| `Console.TypeKeys` | src/BVApp_ConsoleClient.cpp:222-308 | whatever keys are pressed, the bytes written are the frames of the submitted lines in order: a chat frame for a message, an offer for a file command that names a regular file, nothing for other commands or after leaving |
| `Console.ScriptTexts` | src/BVApp_ConsoleClient.cpp:229-241 | the chat texts among those frames are exactly the submitted lines that are not empty, no command and before leaving, cut to 128 characters |
| `Console.DispatchUnambiguous` | src/BVTCPSession.cpp:194-262 | for every text the console can type and every file frame before 5*2^40 milliseconds exactly one test fires, the intended one |
| `Console.ScriptNumbered` | src/BVApp_ConsoleClient.cpp:261-308 | every frame written has its own clock reading and every offer its own key |
| `Console.TypedLinesArrive` | src/BVApp_ConsoleClient.cpp:261-308 | for every sequence of keys the receiver reads all that was written, takes each frame for what it is, and posts as chat exactly those messages, in order; only offers need a fitting name and a clear clock |
| `Console.TextTyped` | src/BVApp_ConsoleClient.cpp:222-259 | printable keys and Enter submit the line with exactly these characters appended |
| `Console.KeysWithoutTrace` | src/BVApp_ConsoleClient.cpp:246-258 | an erased character, an erase key on an empty line and any unprintable key leave no trace |
| `Console.MessagesArrive` | src/BVApp_ConsoleClient.cpp:222-308 | type any lines that are messages, each ended by Enter, and exactly these lines arrive, in order, cut to 128 characters |
| `Console.FileCommandTyped` | src/BVApp_ConsoleClient.cpp:269-313 | typing the file command and a path writes the offer of the file that path names, or nothing |
| `Console.NothingAfterLeaving` | src/BVApp_ConsoleClient.cpp:229-235 | after the leave command nothing is written, whatever keys follow |
| `App.SplitNamesRoundTrip` | src/BVApp_ConsoleClient.cpp:720-782 | splitting the joined service and file name gives both back when the service has no bar |
| `App.PathLayout` | include/BVReceivedFile.hpp:22-33 | a received file lies at root, data directory, sender, file name |
| `App.PathOfOtherRoots` | include/BVReceivedFile.hpp:22-33 | a slash at the end of the root makes no difference, and an empty root makes the path relative |
| `App.PathOfAbsolute` | include/BVReceivedFile.hpp:28-33 | an absolute file name replaces the whole destination |
| `App.PathsDiffer` | include/BVReceivedFile.hpp:22-33 | for plain names, two files have one destination if and only if sender and file name are the same |
| `App.SplitNamesWithoutBar` | src/BVApp_ConsoleClient.cpp:744-748 | a text without a bar is taken for both names |
| `App.Client.Begin` | include/BVReceivedFile.hpp:44-63 | the destination becomes empty whatever it held, or it cannot be opened and all files stay |
| `App.Client.AppendChunk` | include/BVReceivedFile.hpp:66-79 | the destination grows by the chunk and no other file changes; a path that takes no data is reported only if the chunk reaches the stream buffer, one that cannot be opened changes nothing |
| `App.Client.Finish` | include/BVReceivedFile.hpp:83-105 | the destination becomes its bytes plus the last chunk, resized to the announced size; a failed write goes unreported, a failed resize leaves the untrimmed bytes |
| `App.Client.HandleFileTransferBegin` | src/BVApp_ConsoleClient.cpp:720-782 | opens the destination and enters the key in the table; fails exactly when it cannot open |
| `App.Client.HandleFileChunkSent` | src/BVApp_ConsoleClient.cpp:784-843 | appends to the file of that key; fails exactly on an unknown key, a path that cannot be opened, or a refused write that the stream notices |
| `App.Client.HandleFileTransferEnd` | src/BVApp_ConsoleClient.cpp:845-908 | finishes the file of that key and forgets the key; fails exactly on an unknown key or a path that cannot be opened or resized |
| `App.Client.ListenToMail` | include/BVComponent.hpp:39-73 | the mailbox loop handles messages in order up to the first failure |
| `EndToEnd.DataHandled` | src/BVApp_ConsoleClient.cpp:784-908 | any run of data events appends their payloads, and trims to the announced size at END |
| `EndToEnd.TransferHandled` | include/BVReceivedFile.hpp:44-105 | for a transfer of any size, what the destination holds afterwards and that nothing else changes |
| `EndToEnd.WholeStream` | include/BVTCPSession.hpp:82-252 | the session hands over exactly the transfer's events and is ready again if and only if an END was sent |
| `EndToEnd.FileArrivesIntact` | include/BVFileTransferContext.hpp:73-161 | for every content of 1 to 4,294,328,220 bytes, every leftover destination and every other file: sender bytes, parsed and handled in order, leave exactly the content, touch nothing else, and leave the session ready |
| `EndToEnd.LargeFileIsCut` | include/BVFileTransferContext.hpp:112-160 | a file of 2^32 bytes or more whose size modulo 2^32 is sendable is taken for received, and exactly that many of its bytes have arrived |
| `EndToEnd.FileArrivesAt` | include/BVReceivedFile.hpp:22-33 | the same with the destination written out, for plain names |
| `EndToEnd.DeliveredExactlyWhenSendable` | include/BVFileTransferContext.hpp:73-161 | for every content at all, delivery with a usable session if and only if the size is in that range |
| `EndToEnd.SendFile` | include/BVFileTransferContext.hpp:223-233 | the same with the three objects: worker loop, session loop, mailbox loop |
| `EndToEnd.FinishedMeansIntactExactly` | include/BVReceivedFile.hpp:83-105 | for every disk: a transfer fails if and only if its path cannot be opened or resized, or takes no data with more than one frame and chunks that reach the stream buffer; one taken for finished is intact if and only if the path took the data or the file is all zeros |
| `EndToEnd.SmallFilesLostSilently` | include/BVReceivedFile.hpp:66-79 | with a stream buffer above 4096 bytes, every file below 64,000 bytes sent to a path that takes no data is taken for received and holds zeros |
| `Interference.NonInterference` | src/BVApp_ConsoleClient.cpp:741-781 | in any mailbox order, what a transfer with its own key and destination leaves is what it would have left alone, whatever entries the table held that a BEGIN will replace |
| `Interference.FailsExactlyAlone` | src/BVApp_ConsoleClient.cpp:805-834 | a mailbox order fails if and only if the events of some key would fail on their own |
| `Interference.AllArriveIntact` | src/BVApp_ConsoleClient.cpp:720-908 | any number of complete transfers with pairwise distinct keys and destinations all arrive, whatever the order of their events and whatever the table held before |
| `Interference.PlainNamesDistinct` | include/BVReceivedFile.hpp:22-33 | different keys and different pairs of plain names make transfers distinct |
| `Interference.SameKeyFails` | src/BVApp_ConsoleClient.cpp:866-902 | for any two complete transfers with equal keys, the order BEGIN, BEGIN, data of one, data of the other fails |
| `Interference.IntactInEveryOrderExactly` | include/BVTCPConnectionManager.hpp:505-519 | two transfers to different destinations arrive in every order if and only if their keys differ |
| `Arrival.MailMixes` | include/BVTCPSession.hpp:82-252 | any number of sessions reading their streams, reads completing in any order: when all is read the mailbox holds the whole transfers, each in its own order, and each session is as if it had read alone |
| `Arrival.ManyFilesArrive` | include/BVTCPSession.hpp:82-252 | from the bytes on any number of streams, in any order of completion, to every file arrived and every session ready |
| `Arrival.CanAllBeRead` | include/BVTCPSession.hpp:82-252 | from every state there is an order of reads after which every session has read all that was sent |
| `Arrival.IntactFromBytesExactly` | include/BVTCPConnectionManager.hpp:505-519 | two files on two byte streams arrive in every order in which the reads complete if and only if their keys differ |
| `Tables.ExactlyOneDials` | src/BVTCPConnectionManager.cpp:45-60 | of two different names exactly one is smaller, and none is smaller than itself |
| `Tables.LessExactly` | src/BVTCPConnectionManager.cpp:53-53 | the smaller name is the one that ends first or has the smaller byte at the first difference |
| `Tables.InsertAgreesExactly` | include/BVTCPConnectionManager.hpp:312-326 | tabling a new name keeps the tables inverse if and only if its id is unused |
| `Tables.RemoveAgrees` | include/BVTCPConnectionManager.hpp:269-294 | removal from agreeing tables never meets a stale mapping, removes exactly that name, and succeeds exactly if it was present |
| `Tables.DeregistrationForgets` | src/BVApp_ConsoleClient.cpp:596-601 | a deregistered name is neither a node nor mapped any more, and from agreeing tables exactly its session is gone |
| `Tables.ConnectionManager.IsSessionAlreadyPresent` | include/BVTCPConnectionManager.hpp:172-205 | the search finds a session if and only if one carries the name |
| `Tables.ConnectionManager.InitiateSessionWithNode` | src/BVTCPConnectionManager.cpp:45-96 | dials if and only if the own name is smaller and no session is present; only then is an id used |
| `Tables.ConnectionManager.HandleResolvedService` | src/BVApp_ConsoleClient.cpp:530-550 | a resolved peer that is no node yet is noted, and dialled if larger and without a session; a known one is left alone |
| `Tables.ConnectionManager.TableUnlessPresent` | include/BVTCPConnectionManager.hpp:296-337 | tables the session if and only if the name has none, otherwise changes nothing |
| `Tables.ConnectionManager.HandleSessionIdentification` | include/BVTCPConnectionManager.hpp:377-428 | a newly identified session is tabled and noted as a node, a duplicate changes nothing |
| `Tables.ConnectionManager.Accepted` | include/BVTCPConnectionManager.hpp:339-375 | an accept takes the reserved id and reserves the next one |
| `Tables.ConnectionManager.RemoveSession` | include/BVTCPConnectionManager.hpp:269-294 | does to both tables what the specification says, and reports the branch taken |
| `Tables.ConnectionManager.HandleDeregistration` | src/BVApp_ConsoleClient.cpp:596-601 | a deregistered peer is forgotten as a node and removed from both tables |
| `Handshake.StepKeepsInv` | include/BVTCPConnectionManager.hpp:296-428 | every step of every peer, and every broken connection, keeps the invariant |
| `Handshake.EveryRunKeepsInv` | include/BVTCPConnectionManager.hpp:296-428 | the invariant holds after every run, the part about the tables of one manager as long as that manager has used no id twice |
| `Handshake.HandshakeAgreement` | src/BVTCPSession.cpp:50-123 | in every run only the smaller name of a pair has dialled, and a dialer is established only on a connection the acceptor established and tabled under the dialer's name before |
| `Handshake.TableAgreement` | include/BVTCPConnectionManager.hpp:269-428 | in every run, for a manager that has used no id twice, the two tables are inverse, no name has two sessions, every entry is a session of this peer with that name, and the stale branch is unreachable |
| `Handshake.HandshakeCompletes` | include/BVTCPConnectionManager.hpp:296-428 | from any state in which a resolved peer may be dialled and neither has a session, six steps establish the connection at both ends and in both tables, note each as a node of the other, and change nothing else |
| `HandshakeIds.AgreeExactly` | src/BVTCPConnectionManager.cpp:62-68 | for every peer of every network: the tables agree in every run with at most n ids if and only if there is at most one other peer, or n <= 65536, or n = 65537 and the others are all on one side |
| `HandshakeIds.DisagreeBetween` | src/BVTCPConnectionManager.cpp:62-68 | with a smaller and a larger peer, the run at 65537 ids in which two names map to one session |
| `HandshakeIds.DisagreeBelow` | src/BVTCPConnectionManager.cpp:62-68 | with two larger peers, the run at 65538 ids |
| `HandshakeIds.DisagreeAbove` | include/BVTCPConnectionManager.hpp:339-375 | with two smaller peers, the run of accepted connections at 65538 ids |
| `HandshakeIds.OneNameEveryRun` | include/BVTCPConnectionManager.hpp:296-428 | with one other peer the tables agree in every run, however many ids are issued |
| `HandshakeWire.HelloAnsweredExactly` | src/BVTCPSession.cpp:50-76 | a HELLO is answered if and only if byte 6 of its payload is zero |
| `HandshakeWire.HelloBackUnderstood` | src/BVTCPSession.cpp:78-115 | the name arrives whatever the unset payload bytes are, and decides between established and closed |
| `HandshakeWire.DialerStepInBytes` | src/BVTCPSession.cpp:50-123 | on the frame of the message, the session reaches the state of the handshake model's step, replies exactly when it does, and keeps one read |
| `HandshakeWire.AcceptorStepInBytes` | include/BVTCPConnectionManager.hpp:377-428 | the same for the acceptor against its manager's tables; no read is left exactly on a duplicate |
| `Consent.TransferDesk.InitiateFileTransferWithSession` | include/BVTCPConnectionManager.hpp:505-519 | the offer is pending under the next key, and sent exactly if its session exists |
| `Consent.TransferDesk.SignalFileTransfer` | include/BVTCPConnectionManager.hpp:523-553 | a verdict decides a pending key and starts it exactly on an ACCEPT with a live session |
| `Consent.PendingEveryRun` | include/BVTCPConnectionManager.hpp:505-553 | over every history with at most 2^32 offers, a key is pending if and only if its offer has had no verdict since, and then with its own session and path |
| `Consent.StartedExactlyWhenGranted` | include/BVTCPConnectionManager.hpp:505-553 | over every such history, a transfer has started if and only if that key was offered and the first verdict on it afterwards was an ACCEPT that found its session still tabled |
| `Consent.EachKeyStartsAtMostOnce` | include/BVTCPConnectionManager.hpp:523-553 | over every such history no key starts twice, and a started key is no longer pending |
| `Consent.StartsOnceExactlyUpToKeySpace` | include/BVTCPConnectionManager.hpp:505-553 | every history with n offers starts each key at most once if and only if n <= 2^32 |
| `Consent.KeyReuseStartsTwice` | include/BVTCPConnectionManager.hpp:508-509 | for every number of offers above 2^32 there is a history in which key 0 starts twice |
| `ConsentNetwork.StepKeeps` | src/BVApp_ConsoleClient.cpp:700-714 | connections, offers, prompts, answers routed by the name shown, and verdicts decided on the bare key: each step at each peer keeps the invariant that ties every verdict to the offer it answers |
| `ConsentNetwork.NothingLeavesWithoutConsent` | src/BVTCPSession.cpp:241-254 | in every run of peers whose names cannot be confused, a transfer on a connection starts only after the user at its other end accepted that key, from that sender, for that file |
| `ConsentNetwork.ConsentedExactly` | include/BVTCPConnectionManager.hpp:556-573 | for every set of peers: every run without wrapped counters starts only what was accepted if and only if no name, cut at its bar, is the name of another peer before a third |
| `ConsentNetwork.OfferIsAnswered` | include/BVTCPConnectionManager.hpp:505-573 | in whatever state the network is, an offer between connected peers, shown and answered: for both answers a verdict comes back, the offer is no longer pending, and the file starts on its own connection if and only if accepted |
| `ConsentNetwork.FirstOfferIsAnswered` | src/BVApp_ConsoleClient.cpp:120-143 | for any two peers, the sender without a bar in its name, there is a run from nothing to an answered first offer, for both answers |
| `ConsentNetwork.FileNameIs` | include/BVTCPConnectionManager.hpp:511-512 | the file name of an offer is the last component of its path |
| `ConsentNetwork.BarFreeSuffices` | src/BVApp_ConsoleClient.cpp:700-702 | names without a bar cannot be confused |
| `ConsentNetwork.ConfusionStartsUnseen` | src/BVApp_ConsoleClient.cpp:120-143 | for any three peers with confused names there is a run in which a file starts whose offer no user has seen |
| `ConsentNetwork.NoPeerStartsTwice` | include/BVTCPConnectionManager.hpp:523-553 | in every such run of the network no peer starts a key twice |
| `ConsentNetwork.HistoryShowsEveryStart` | include/BVTCPConnectionManager.hpp:523-553 | each peer's starts in a run are exactly those the history shows, in order |
| `Queue.StepKeepsInv` | include/threadsafequeue.hpp:27-130 | every memory access of every thread keeps the invariant linking memory, locks and items |
| `Queue.QueueIsFifo` | include/threadsafequeue.hpp:105-130 | at every moment of every interleaving, items popped followed by the items linked in memory from the head to the dummy are the items pushed, in order; while a popper has moved the head out, from the node it took |
| `Queue.StaleTailIsHarmless` | include/threadsafequeue.hpp:27-73 | a popper reports empty if and only if all that was pushed before it looked has been popped, and can take the head if and only if not; what it takes is a filled node that is not the dummy |
| `Queue.NoBadAccess` | include/threadsafequeue.hpp:32-37 | no step of push or pop touches a freed node, no popper's node is one a pusher may be writing, the node read after unlocking still holds the popped item, and no other thread can reach a node about to be freed |
| `Queue.PushCompletes` | include/threadsafequeue.hpp:105-130 | in every reachable state with the tail lock free, a push not overtaken runs to its end, appends its item and leaves its node as the dummy |
| `Queue.PopCompletes` | include/threadsafequeue.hpp:32-73 | in every reachable state with the locks free, a pop not overtaken takes the oldest item and frees its node, or reports empty if there is none |
| `Broker.CycleFindsExactly` | src/BVBroker.cpp:188-201 | the search finds a free id if and only if there is one |
| `Broker.CycleFindsNext` | src/BVBroker.cpp:188-201 | it finds the first free id after the current one in cyclic order |
| `Broker.AttachExactly` | src/BVBroker.cpp:71-99 | in every state, Attach gives only a free id and adds exactly that empty mailbox; it fails if and only if all 256 slots are taken; the next id is free if any is |
| `Broker.AttachGivesNext` | src/BVBroker.cpp:71-99 | Attach gives the first free id from the current one on |
| `Broker.FirstIds` | src/BVBroker.cpp:71-99 | on a fresh broker the ids are 0, 1, 2 and so on up to 255 |
| `Broker.FullCounterReadsZero` | src/BVBroker.cpp:73-74 | with all slots taken the 8-bit counter reads zero, so its guard cannot notice |
| `Broker.EveryRunKeepsInv` | src/BVBroker.cpp:71-201 | over every run of the four operations: counter equal to occupied slots modulo 256, listed subscribers attached, no empty list, no duplicates |
| `Broker.SubscriptionsExactly` | src/BVBroker.cpp:103-185 | who hears what after each operation, exactly |
| `Broker.SubscribersInOrder` | src/BVBroker.cpp:138-152 | Subscribe appends the subscriber to each list it is not in yet, and keeps the order |
| `Broker.BoxesExactly` | src/BVBroker.cpp:103-185 | which mailboxes there are after each operation; only Attach and Detach touch them |
| `Broker.MessageBroker.CycleCurrentSubscriberId` | src/BVBroker.cpp:188-201 | the loop refines the specified search |
| `Broker.MessageBroker.Attach` | src/BVBroker.cpp:71-99 | refines the specified allocation |
| `Broker.MessageBroker.Detach` | src/BVBroker.cpp:103-122 | the erasing loop removes exactly that subscriber from every list and drops emptied lists |
| `Broker.MessageBroker.Subscribe` | src/BVBroker.cpp:138-152 | the loop adds the subscriber to each event once; refused exactly when not attached |
| `Broker.MessageBroker.Unsubscribe` | src/BVBroker.cpp:168-185 | the loop removes the subscriber from each event and drops emptied lists |
| `Broker.MessageBroker.Route` | src/BVBroker.cpp:32-49 | each subscriber's mailbox gets the message once, every other mailbox is unchanged |
| `Broker.MessageBroker.Run` | src/BVBroker.cpp:12-27 | each mailbox gets exactly the messages up to and including the first TERMINATE_ALL that it subscribes to, once each and in order; the loop stops exactly if there was one |
| `SharedMessages.NumbersAreOwed` | src/BVBroker.cpp:32-49 | the shared messages in a mailbox are those the routing loop delivers, in order |
| `SharedMessages.DataGoesToTheFirst` | include/BVComponent.hpp:58-58 | in whatever order components handle their mail, the data of a message goes to the first handler called for it and to no other |
| `SharedMessages.EveryHandlerSeesExactly` | include/BVComponent.hpp:58-58 | every handler finds the data of every message in every order if and only if no message has two subscribers |
| `LinkedList.List.FindTail` | src/linked_list.c:28-39 | the last node, or null for the empty list |
| `LinkedList.List.AddElement` | src/linked_list.c:41-55 | appends the element, and whatever hangs on it, to the sequence |
| `LinkedList.List.RemoveElement` | src/linked_list.c:57-88 | removes and frees exactly the given node and keeps the order of the rest; a node not in the list changes nothing |
| `LinkedList.List.ClearList` | src/linked_list.c:90-104 | terminates with an empty list, having freed each node exactly once in order and read none after it was freed |
| `Browse.RecordRoundTrip` | include/BVDiscovery.hpp:34-59 | every record reads back with each field equal to the original without spaces if shorter than its limit and empty otherwise, no field spilling |
| `Browse.RecordLayout` | src/bonjour_api.c:47-67 | the record byte by byte: the fields at 0, 24 and 48, spaces after them, a NUL at 63 |
| `Browse.FillRecord` | src/bonjour_api.c:47-67 | the buffer loop and the three copies produce exactly the padded record |
| `Browse.ConstructElement` | src/linked_list.c:106-122 | the element holds the string up to its first NUL or the size of the element, padded with NULs, or zeros when there is no string |
| `Browse.ServiceBrowseReply` | src/bonjour_api.c:21-75 | an error adds nothing; any other callback appends its record and sets the flag |
| `Browse.ReturnList` | include/BVDiscovery.hpp:34-59 | one instance per element, in list order |
| `Browse.BrowseBatch` | src/bonjour_api.c:47-69 | for every sequence of callbacks the list read back has one instance per good callback, in order, each field as it should read back |
| `Discovery.SurvivesExactly` | src/bonjour_api.c:47-69 | a name is read back as itself if and only if it is shorter than 24 bytes and has no space, and whatever is read does |
| `Discovery.DialDiscovered` | src/BVApp_ConsoleClient.cpp:495-556 | for every batch of browse callbacks, the names dialled are exactly those that some record is read as, that resolve and that are larger than the own name, once each |
| `Discovery.DialledAre` | src/BVApp_ConsoleClient.cpp:495-556 | when the records of all peers have come in, what that method dials is what the network model says |
| `Discovery.DialsExactly` | src/BVDiscovery_Bonjour.cpp:147-158 | in every network a peer is dialled by exactly the smaller ones if its name survives the record, and by nobody otherwise |
| `Discovery.ExactlyOneDialsIff` | src/BVTCPConnectionManager.cpp:45-60 | of two peers exactly one dials if and only if the larger name survives; they never both dial |
| `Discovery.EveryPairDialsExactly` | src/BVTCPConnectionManager.cpp:45-60 | in a whole network every pair has exactly one dialler if and only if every name but the smallest survives |

## Left out

- mDNS and DNS-SD calls, Avahi polling, resolution retries and discovery pausing: decided by daemons and libraries.
- Boost.Asio, sockets, real threads and the C++ memory model: replaced by steps and the assumptions above.
- Console rendering, the menus, the screen of the offer prompt (a second prompt overwrites the first; the model lets the user answer any), the SwiftUI client and the Objective-C bridge: user interface.
- Wake-up of a waiting popper: `notify_one` is called without the head lock, so only the safety of the queue is stated.
- Broker `Stop` and orderly shutdown, cancellation of a transfer, and reconnecting after a silent crash: not guaranteed by the code.
- A file that cannot be opened after its offer was accepted: the transfer then sends nothing; the model starts with an open file.
- Creating the per-sender directory: part of what `blocked` stands for. A disk that fills up in the middle of a transfer, or keeps part of a refused write: not covered by `full`.
- Trimming, unquoting and unescaping of the path after the file command: the model asks for the file an argument names.
- `WriteFileChunk` (asynchronous), `WriteSome` and `ReadSome`, `try_pop(T&)`, `outMailboxes_p` and node ids: unused on the live path.
- Chat written during a transfer or before the handshake has ended, and overlapping writes from one `writeBuf`: outside the stated use.
- Progress text and percentages, `recvBytes`, chat logs: easy members.
- Names with dot-dot components and other path spellings of one file: two paths are the same file only if they are equal as text.
- A chat frame from a foreign program that claims more than 128 bytes: the original copies past the payload, the model stops at 128.
- A service name longer than 128 bytes in HELLOBACK: excluded by the length of the frame's payload in the model.
- Hosts of different byte order.
