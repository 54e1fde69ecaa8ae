# A verified model of redisproxy

redisproxy lets many Redis clients share one connection to a server. The model covers the whole way of a
request and of its reply:

- **Memory and buffers** (`Blocks`, `BufferOps`, `BufferRuns`, `Buffers`). Reference-counted blocks, and buffers
  that are windows into them and may share them. Every operation of `Buffer` is a function of the heap;
  the class `Buffer` updates its fields in place and is proved against it. Sharing turns out to be unobservable.
- **Reader and parser** (`Readers`, `Slices`, `Parsers`, `CmdParsers`). `BufferReader` hands out slices of the input
  block, the parsers turn them into arguments and responses and keep their place between calls. What one call of
  `ParseRequest` or `ParseResponse` does is a function of the parser fields, the bytes collected so far and the
  unread input (`RequestMachine`, `ReplyMachine`); the classes are proved equal to it.
- **The wire format** (`Decimal`, `Scanner`, `Resp`, `Requests`, `Resumption`, `RequestStream`, `InlineRequests`,
  `Replies`, `ReplyFraming`). Printing and parsing are inverse; where a stream may be cut; which replies are framed.
- **Upstream and sessions** (`Ring`, `UpstreamMachine`, `ReplyStream`, `ReplyForesight`, `ReplyDelivery`,
  `SessionMachine`, `SessionBatches`, `EmptyFirst`, `CutRequests`, `SessionRetries`, `Wakeups`, `Upstreams`,
  `Sessions`). The queue of waiting readers, `OnServerRead`, `PushRequest`, AUTH, `OnClientRead`.
- **Sending** (`Connections`). The write list and its flag bits, partial writes, the sweep over the list.
- **The link as a protocol** (`Protocol`, `LinkSafety`, `SessionRuns`). Steps of sessions, socket and server in any
  order, and what holds after every run.

The kernel is represented by the results of `read` and `write`; the server by its answers. Memory that a
program reads without having written it (`atoi` behind a header line, the contents of a new block) is an
arbitrary value: `slack` is what follows the unread bytes in their block. One `Memory` stands for the blocks
that one group of buffers may share; groups exchange bytes only by copying, as `Append( const char*, size )` does.
The source has one heap. The model puts the send buffers of connections, the input side of a session, the input
side of an upstream and the scratch buffers of one call into different memories, and `Session.OnClientRead` and
`Upstream.Init` require that they are different.

## What does not hold

Each of these is a proved lemma, with the exact condition under which the code does what is expected, or with all
that happens instead.

- A canonical request that arrives in two pieces is forwarded intact iff the cut is before the end of its first
  argument and not directly in front of it (`CutInTwoIff`). The parser itself resumes correctly
  (`FragmentationIndependence`), but `OnClientRead` takes the arguments collected so far for a complete request. An
  inline request is forwarded intact iff there is no space in the first piece (`InlineCutInTwoIff`).
- Inside the line ending of an empty argument the parser loses its place (`EmptyBulkLosesItsPlace`,
  `CutIsTransparentIff`). When that argument is the first one, the request comes through iff the next argument is
  shorter than 100 bytes and spells its own length (`CutInTwoIff`, `SpellsLengthIff`).
- A piece that ends in front of an argument header of a canonical request, or behind a space of an inline one, makes
  `OnClientRead` close the client (`BatchIsForwarded`, `InlineCutInTwoIff`).
- The parser is not reset behind a request that was held back and is sent at last. That is harmless iff the request
  was an inline one and the next byte, in this piece or in the next, does not start an array (`RetryIsHarmlessIff`,
  `RetryLaterIff`). Behind an array an empty request is sent too (`RetryAddsAnEmptyRequest`); behind an inline line
  the header of an array is sent as a request of one word (`HeaderTakenForAWord`). A held-back `*0` is forgotten
  (`EmptyRequestIsForgotten`); a negative count is sent as an empty request by the next call that finds input
  (`NegativeCountIsSent`).
- A session that was refused stops reading, and only a reply to it makes it read again: it can be woken iff one of its
  own requests is still queued (`CanBeWokenIff`). Otherwise it stays silent in every run (`StaysAsleep`), as every
  session does that sends before the reply to AUTH has come (`EarlySessionsSleep`).
- A request without arguments gets no reply, so the next reply goes to its sender (`RightRequestIff`,
  `EmptyRequestTakesTheNextReply`).
- A reply that holds an empty bulk string is cut short (`ReplyFramedIff`, `DeliveredIntactIff`), unless the memory
  behind a piece happens to hold the right number (`IntactByLuck`); as the reply to a single command it stops the
  upstream for good (`EmptyBulkStopsTheUpstream`).
- `OnServerRead` makes room for the next read iff the stream received so far does not end in front of an element of
  an array (`MakesRoomIff`). When it does end there the call returns OutOfBound and leaves the free room as it is, and
  with a full buffer the next event clears EPOLLIN (`Upstream.OnServerRead`, `Upstream.OnReadable`), which nothing on
  the upstream side sets again.
- A space behind an inline command, in the piece that completes it, is taken before the end of its line
  (`InlineReadIff`, `InlineFragmentationIff`). An empty word of an inline command, that is a space at its start or two
  in a row, becomes all the bytes in the buffer (`InlinePiecesIff`, `EmptyWordTakesAll`).
- Header numbers are not checked. A count or length of 2^32 + n is read as n (`AtoiOfNumber`); an argument of length -1
  or -2 is taken for other bytes, and with any other negative one, or one above 2^31-3, the session waits for ever
  (`OddLengths`, `NeverComes`).
- A header of more than one byte has a value of its own iff not all the bytes behind its first one are spaces;
  otherwise it has the value of whatever memory follows it (`OwnValueIff`).

The comment at src/buffer_reader.cpp:61-76 describes an earliest-delimiter search; the code takes the first listed
delimiter that occurs, and so does the model. The assertion at src/buffer.cpp:138 does not hold after a relocation
with a non-zero offset; the model proves what the callers rely on, room for the bytes asked for.

## Model

| member | source | states |
|---|---|---|
| Decimal.AtoiOfDigits | src/utils.cpp:8-11 | A printed length of up to 2^31-1 is read back by atoi, whatever memory follows its line ending |
| Decimal.AtoiOfNumber | src/utils.cpp:8-11 | Any number, with spaces and a sign in front of it, is read modulo 2^32 as an int32; what does not fit into 64 bits is -1 when positive and 0 when negative |
| Scanner.HeaderRoundTrip | src/cmd.cpp:142-161 | A printed header in front of any bytes is read as its number, and exactly the bytes behind its line are left |
| Scanner.ReadIntExtends | src/cmd.cpp:142-161 | Once a header line is there that is not all spaces behind its first byte, later bytes change neither its value nor where it ends |
| Scanner.OwnValueIff | src/utils.cpp:8-11 | The value of a header line is the same whatever memory follows it iff the line is one byte long or not all spaces behind its first byte |
| Requests.RoundTrip | src/cmd.cpp:167-199 | Parsing the printed request in front of any bytes gives exactly its arguments, of any bytes and also empty, and leaves exactly those bytes |
| Requests.PrefixFree | src/cmd.cpp:167-199 | Two streams that start with printed requests are equal only if the requests are equal, and so is what follows |
| Requests.PartOfRequest | src/cmd.cpp:109-140 | A call on part of a request never reports one; it returns OutOfBound iff the cut is in front of an argument header, and loses its place iff the cut is inside an empty argument |
| Requests.CutOfRequestIff | src/cmd.cpp:109-140 | For all bytes that may come, resuming a cut request equals one call on everything iff the cut is outside its empty arguments |
| Resumption.LoopEnds | src/cmd.cpp:118-137 | How the loop over the bulk strings can stop on arbitrary bytes, and the index and length fields it leaves |
| Resumption.RequestResumes | src/cmd.cpp:201-234 | On arbitrary input whose headers have values of their own, none of them -2, a stopped parse that goes on gives the result of one call on all the bytes |
| Resumption.CutIsTransparentIff | src/cmd.cpp:119-137 | A stopped parse resumes correctly for all later bytes iff it did not stop between the header and the line ending of an empty bulk string |
| Resumption.EmptyBulkLosesItsPlace | src/cmd.cpp:119-122 | Resuming inside an empty bulk string reads its line ending as a header: the argument that one call would append is missing |
| Resumption.OddLengths | src/cmd.cpp:118-137 | An argument of length -1 takes one byte and is empty, one of length -2 is all the bytes there are without the last two and these are read again; for any other length below zero or above 2^31-3 the call waits |
| Resumption.NeverComes | src/cmd.cpp:201-234 | In front of an argument of such a length every later call on any bytes waits |
| RequestStream.FragmentationIndependence | src/cmd.cpp:201-234 | However a stream that starts with a request is cut outside its empty arguments, ParseRequest called after each piece reports it after the piece that completes it, not before, with exactly its arguments, and leaves exactly the bytes behind it |
| RequestStream.FragmentationOfNonEmpty | src/cmd.cpp:201-234 | With non-empty arguments the same holds for every way to cut the stream |
| InlineRequests.InlineReadIff | src/cmd.cpp:31-61 | A line of words gives exactly these words and leaves the bytes behind it iff there is no space in those bytes |
| InlineRequests.InlinePiecesIff | src/cmd.cpp:31-61 | A line of pieces separated by spaces, of which any may be empty, gives exactly these and leaves the bytes behind it iff no space is in those bytes and no piece is empty but a last one in front of a carriage return |
| InlineRequests.EmptyWordTakesAll | src/cmd.cpp:31-61 | A word with nothing in front of its delimiter becomes all the bytes there are, and the parse goes on behind the delimiter |
| InlineRequests.InlineFragmentationIff | src/cmd.cpp:31-61 | However an inline command is cut into pieces, it is reported after the piece that completes it, with exactly its words and the bytes behind it, iff there is no space behind its line in that piece |
| InlineRequests.InlineThenCanonical | src/cmd.cpp:167-199 | The words of an inline command, printed as a request and parsed again, are the same words |
| Replies.ResponseConserves | src/cmd.cpp:236-267 | On arbitrary bytes and for every outcome response and unread input together are unchanged, the parser fields stay resumable, and a reported reply consumed input |
| Replies.UnknownIff | src/cmd.cpp:236-267 | A call returns Unknown iff a fresh parser finds a first byte that is none of the five type bytes; then nothing changes, and nor does it without input, for which TryAgain is returned |
| Replies.ReplyLoopKeeps | src/cmd.cpp:80-101 | The loop over the bulk strings of a reply loses no byte, keeps its index in range and makes progress |
| Replies.ResponseResumes | src/cmd.cpp:236-267 | A stopped reply parse goes on as if all bytes had come at once, and a finished one ignores later bytes |
| ReplyFraming.ReplyFramedIff | src/cmd.cpp:63-104 | A well-formed reply in front of any bytes is reported as exactly its own bytes iff it holds no empty bulk string; otherwise a proper prefix of it is reported |
| ReplyFraming.PartOfReply | src/cmd.cpp:236-267 | A call on part of a framable reply keeps waiting: with OutOfBound iff the part ends exactly in front of an element of an array, else with TryAgain |
| ReplyFraming.TooFewTurns | src/cmd.cpp:80-101 | With fewer turns of the loop than elements left, the reply is reported before its last byte |
| Ring.Visits | src/recycle.h:126-136 | After k steps from the oldest element the iterator stands at element k, is at the end iff all were visited, and what it has not visited is what EraseUntil would leave |
| Ring.Recycle.Push | src/recycle.h:75-84 | Full iff the queue holds size-1 elements; otherwise the element is appended, also across the wrap-around |
| Ring.Recycle.Pop | src/recycle.h:86-94 | Empty iff the queue is empty; otherwise the oldest element comes and the rest stays in order |
| Ring.Recycle.EraseUntil | src/recycle.h:70-73 | The elements the iterator has visited go, the others stay |
| Ring.Iterator.Next | src/recycle.h:132-136 | The first of the elements still to be visited is done |
| Buffers.Memory.AllocRef | src/mem_alloc.cpp:43-51 | A new block with count one and arbitrary contents; no other block changes |
| Buffers.Memory.DescRef | src/mem_alloc.cpp:90-95 | The count goes down, and the block goes exactly when it reaches zero |
| Buffers.Buffer.Copy | src/buffer.cpp:12-22 | The copy views the same bytes, the count is one more, and no other buffer notices |
| Buffers.Buffer.Destroy | src/buffer.cpp:35-39 | The buffer's share of its block goes and no other buffer notices |
| Buffers.Buffer.Assign | src/buffer.cpp:41-64 | The old block is let go and the other buffer's block shared, with exact counts, and no other buffer notices; a buffer may be assigned to itself when somebody else holds its block |
| Buffers.Buffer.Clear | src/buffer.cpp:66-74 | The text is empty and both ends are at zero; the block is given up iff somebody else holds it too, so that afterwards the buffer shares nothing |
| Buffers.Buffer.Skip | src/buffer.cpp:76-88 | For a non-negative start `Offset` drops so many bytes at the front; a positive length keeps so many behind it, a negative one drops so many at the end, clamped to the text |
| Buffers.Buffer.AppendSize | src/buffer.cpp:90-98 | OutOfBound iff there is not so much room, and then nothing changes |
| Buffers.Buffer.AppendCapacity | src/buffer.cpp:100-140 | Every text stays and there is room for n bytes: nothing changes when there was, a block nobody else holds is compacted when that makes the room, otherwise a new block has room for exactly n |
| Buffers.Buffer.AppendBytes | src/buffer.cpp:165-180 | The text grows by exactly the bytes and no other buffer's text changes |
| Buffers.Buffer.AppendBuffer | src/buffer.cpp:142-163 | The text grows by the first n bytes of the other buffer, by all of them for zero, in each of the three branches; OutOfBound iff it has fewer |
| BufferOps.GrowKeeps | src/buffer.cpp:100-140 | Growing leaves all texts as they were, leaves room, and either changes nothing or leaves the buffer alone in its block |
| BufferOps.TailIsFree | src/buffer.cpp:176-177 | Writing behind the end of the last view of a block overwrites no byte that any other view covers |
| BufferOps.OffsetKeeps | src/buffer.cpp:76-88 | `Offset` keeps counts exact and does to the text what dropping at both ends does |
| BufferRuns.ShareIff | src/buffer.cpp:156-157 | Appending a buffer of the same block appends its bytes iff these are the bytes behind the end of the target |
| BufferRuns.StepRefines | src/buffer.cpp:12-180 | Each operation on shared blocks keeps counts exact and bounds intact and does to the texts what it would do to separate strings |
| BufferRuns.RunRefines | src/buffer.cpp:12-180 | Over every run of operations each block's count is the number of buffers on it, it is freed exactly at zero, no view points at a freed block, and the buffers read as if nothing were shared |
| BufferRuns.SliceStability | src/buffer.cpp:100-180 | A slice that is not operated on itself keeps its bytes over every run of reads, appends, compactions, relocations and frees around it |
| Readers.BufferReader.ReadUntil | src/buffer_reader.cpp:17-37 | The target gets the slice up to, or with, the first delimiter and the cursor moves behind it; OutOfBound and NotFound change nothing |
| Readers.BufferReader.ReadUntilAny | src/buffer_reader.cpp:39-79 | The delimiter is the first listed one that occurs anywhere |
| Readers.BufferReader.Read | src/buffer_reader.cpp:81-99 | The target gets exactly n bytes, all that are left for zero, or OutOfBound and nothing |
| Readers.BufferReader.Next | src/buffer_reader.cpp:101-111 | The cursor moves by the length, or OutOfBound at the end or when so much is not left |
| Readers.BufferReader.Last | src/buffer_reader.cpp:119-123 | The byte in front of the cursor, zero at the start |
| Parsers.ParseInt32 | src/utils.cpp:8-11 | atoi from the second byte of the line on, into the memory behind it |
| Parsers.MultibulkParser.HandleRequest | src/cmd.cpp:109-140 | Fields, arguments, unread input and result equal `RequestMachine.HandleRequest`; the arguments are new slices of the input block and no other buffer changes |
| Parsers.MultibulkParser.HandleResponse | src/cmd.cpp:63-104 | Fields, response, unread input and result equal `ReplyMachine.HandleResponse`; the response keeps a block of its own |
| Parsers.ReadInt32Into | src/cmd.cpp:142-161 | The header line is added to the response before it is read as a number |
| Parsers.InlineParser.HandleRequest | src/cmd.cpp:31-61 | Arguments, unread input and result equal `RequestMachine.InlineRequest` |
| Parsers.InlineParser.HandleResponse | src/cmd.cpp:19-26 | A whole line goes to the response, or nothing and TryAgain |
| Parsers.Cmd.FormatRESP2 | src/cmd.cpp:167-199 | The text of a buffer that is none of the arguments grows by exactly the canonical request of the arguments |
| Parsers.Cmd.AppendArg | src/cmd.h:48 | The command holds one more argument, a copy of the buffer that views the same bytes |
| Parsers.Cmd.Reset | src/cmd.h:49 | All argument buffers go and no other buffer notices |
| CmdParsers.CmdParser.ParseRequest | src/cmd.cpp:201-234 | Parser state, arguments, input buffer and result equal `RequestMachine.ParseRequest` on the text of the input buffer; what was read is dropped from it |
| CmdParsers.CmdParser.ParseResponse | src/cmd.cpp:236-267 | Parser state, response, input buffer and result equal `ReplyMachine.ParseResponse`; the input buffer stays the one that may write behind its bytes |
| CmdParsers.CmdParser.Reset | src/cmd.h:120-123 | The parser is as new |
| CmdParsers.InputArrives | src/netio.cpp:358-386 | Bytes read into the input buffer come behind the unread ones, and every argument and response collected so far keeps its bytes |
| UpstreamMachine.ReadConserves | src/upstream.cpp:193-234 | Whatever the server sends and however the call ends, bytes handed on, partial reply and unread input are together the bytes received |
| UpstreamMachine.ReadKeepsPresent | src/upstream.cpp:209-218 | Whatever the server sends, the readers that still wait are the ones that were queued |
| UpstreamMachine.ReadIsFifo | src/upstream.cpp:209-222 | Replies go to the readers at the head of the queue in order, and exactly these leave it |
| UpstreamMachine.HandIs | src/upstream.cpp:209-222 | The oldest reader leaves the queue and gets the reply, unless its identity is no longer the one that was queued: then nobody gets it |
| UpstreamMachine.IdentitiesDiffer | src/upstream.h:22-25 | AUTH and the sessions, numbered from one, have different identities |
| UpstreamMachine.StaysReady | src/upstream.cpp:193-234 | A call ends with OK, OutOfBound, Unknown or Empty; Empty only with an empty queue, and in all other cases the next call can go on |
| ReplyStream.ReceiveConserves | src/upstream.cpp:193-234 | Over any run of calls on arbitrary bytes, bytes handed on, partial reply and unread input are together the bytes received, and readers served and waiting are those of the start in order; pieces are left over only when a reply came with nobody waiting |
| ReplyStream.ReadsOn | src/upstream.cpp:193-234 | A call after a partial reply equals a call of a fresh parser on all bytes since the last reply ended |
| ReplyStream.ReceiveAll | src/upstream.cpp:193-234 | After any pieces of a stream of framable replies exactly the whole ones were handed on, and the parser holds the rest |
| ReplyForesight.PiecesForesee | src/upstream.cpp:193-234 | For arbitrary bytes and pieces, if the memory behind each piece holds the bytes that come next, a run over the pieces hands on exactly what one call on all the bytes does |
| ReplyStream.MakesRoomIff | src/upstream.cpp:193-234 | However a stream of framable replies is cut, the call on the latest piece ends with OK, after which room is made, iff the stream so far does not end in front of an element of an array; otherwise with OutOfBound, after which none is |
| ReplyDelivery.ReplyFragmentation | src/upstream.cpp:193-234 | However a reply stream is cut, in the end each reply has gone byte for byte to its reader and the parser is at rest |
| ReplyDelivery.DeliveredIntactIff | src/upstream.cpp:193-234 | However a stream of well-formed replies is cut, all reach their readers intact whatever memory is behind the pieces, iff none of them holds an empty bulk string |
| ReplyDelivery.DeliveredAtOnceIff | src/upstream.cpp:193-234 | In one piece the same holds for each memory |
| ReplyDelivery.IntactByLuck | src/cmd.cpp:83-89 | A reply with an empty bulk string comes through intact when it is cut behind that string's line ending and the memory there starts with the right number |
| ReplyDelivery.EmptyBulkStopsTheUpstream | src/cmd.cpp:86-89 | An empty bulk reply is handed on without its line ending, the call returns Unknown, and from then on no reader gets anything |
| SessionMachine.RequestShrinks | src/session.cpp:35-76 | A parse never lengthens the input, and a request from a fresh parser takes some: the loop ends |
| SessionBatches.BatchIsForwarded | src/session.cpp:35-76 | With room upstream, a batch is accepted request by request in order, the upstream is sent exactly the client's bytes for it, and the client is given up iff the piece ends in front of an argument header |
| SessionBatches.BatchIsHeldBack | src/session.cpp:52-62 | Without enough room as many requests as fit are accepted, the next one is kept, the rest stays unread and reading stops |
| SessionRetries.FinishedStates | src/cmd.cpp:201-234 | On arbitrary bytes a reported request leaves the parser behind an inline line, at the end of an array with arguments, or behind an array header with a count of at most zero |
| SessionRetries.InlineIsHeldBack | src/session.cpp:52-62 | Without room an inline request is kept and its line's state stays in the parser |
| SessionRetries.RetryIsHarmlessIff | src/session.cpp:20-33 | Sending a held-back request equals sending it and reading on with a reset parser, for every upstream with room, iff it was inline and the next byte is there and does not start an array |
| SessionRetries.RetryLaterIff | src/session.cpp:20-35 | With nothing behind it the parser stays as it is, and the next piece is read as by a reset parser iff the request was inline and the piece does not start an array |
| SessionRetries.RetryAddsAnEmptyRequest | src/session.cpp:20-33 | Sending a held-back array in front of more input also sends a request without arguments, or when there is no more room keeps the parser ready to |
| SessionRetries.HeaderTakenForAWord | src/session.cpp:20-33 | Behind a held-back inline line the header of a canonical request is sent as a request of one word |
| SessionRetries.EmptyRequestIsForgotten | src/session.cpp:20-33 | A held-back request whose header counted zero arguments is not sent, and the parser goes on as a reset one iff an array follows |
| SessionRetries.NegativeCountIsHeldBack | src/session.cpp:52-62 | Without room a request with a negative count is kept in the parser alone |
| SessionRetries.NegativeCountIsSent | src/session.cpp:35-62 | The next call with input sends it as a request without arguments and reads on with a reset parser, or without room changes nothing but stops reading |
| CutRequests.CutInTwoIff | src/session.cpp:17-87 | A canonical request in two pieces is forwarded intact iff the cut is in front of the end of its first argument and not right before that argument; inside an empty first argument iff the next one spells its own length |
| EmptyFirst.CutInEmptyParsedIff | src/cmd.cpp:118-137 | Behind a cut in an empty first argument the parse comes to the request iff the second argument is shorter than 100 bytes and the number read from it, and from what follows it in memory, is its length |
| EmptyFirst.SpellsLengthIff | src/utils.cpp:8-11 | That holds for any memory iff there is a second argument under 100 bytes which is empty and not the last one, or not empty and has its length as its number |
| CutRequests.InlineCutInTwoIff | src/session.cpp:17-87 | An inline request in two pieces is forwarded intact iff no space is in the first piece; behind a space the client is given up, otherwise the words before the last space are sent as a request of their own |
| Wakeups.CanBeWokenIff | src/session.cpp:10-15 | Some bytes of the server make the upstream call a session's OnServerWrite iff one of the session's requests is queued |
| Wakeups.WokenByReplies | src/upstream.cpp:209-219 | However they are cut, the replies rs wake exactly the sessions among the first readers of the queue, one for each reply |
| Wakeups.RefusedForGood | src/session.cpp:20-27 | A refused session stops reading, and without a request in the queue no bytes from the server wake it |
| Wakeups.StaysAsleep | src/session.cpp:10-33 | In every run in which it pushes nothing, no reply is handed to a session that has no request in the queue |
| Wakeups.EarlySessionsSleep | src/upstream.cpp:92-130 | With a password, until the first reply has come every session is refused and has nothing in the queue |
| Upstreams.Upstream.constructor | src/upstream.h:32-34 | A new upstream lets nobody in, waits for nothing and has a fresh parser |
| Upstreams.Upstream.OnServerRead | src/upstream.cpp:193-234 | Queue, auth flag, deliveries, parser, partial reply and input equal `UpstreamMachine.ServerRead`; after OK there is room for the next read, after OutOfBound or Unknown exactly as much as before the call |
| Upstreams.Upstream.OnReadable | src/connections.cpp:167-190 | When the read succeeds its bytes, all of them or as many as there is free room for, are behind the input and `OnServerRead` is called on it: parser, replies, queue and deliveries equal `ServerRead`. Without room EPOLLIN is cleared and the handler is still called; a read error is returned, closes unless it is to be tried again, and changes nothing here |
| Upstreams.ReadableIsDeliver | src/connections.cpp:167-190 | A step of the protocol that brings bytes leaves the upstream as such a call does |
| Upstreams.Upstream.PushRequest | src/upstream.cpp:236-266 | With a connection that is up and fewer than size-1 readers waiting the reader is queued last, the printed request comes behind the send buffer and EPOLLOUT is set; otherwise TryAgain and no change |
| Upstreams.Upstream.OnServerWrite | src/upstream.cpp:30-37 | A reply to AUTH lets clients in iff it starts with a plus sign, and AUTH is over; a reply to anybody else changes neither |
| Upstreams.Upstream.IsAcceptable | src/upstream.cpp:115-130 | True iff there is a connection, it is up, and AUTH has succeeded or was not needed |
| Upstreams.Upstream.Init | src/upstream.cpp:141-185 | A second call changes nothing. The first one makes room for the first read and sets EPOLLIN; with a password it queues and sends AUTH, or returns TryAgain without connection or room in the queue, and lets nobody in; without one it lets everybody in |
| Upstreams.ListenTo | src/connections.cpp:64-68 | EPOLLIN is set, and nothing else changes |
| Upstreams.OpensAsStart | src/upstream.cpp:172-181 | On a new link `Init` leaves the state in which the runs of the protocol start |
| Sessions.UpstreamPool.PushRequest | src/upstream.cpp:92-106 | Nothing is pushed while there is no connection or before the upstream is acceptable; then reader, send buffer and EPOLLOUT change as in `Upstream::PushRequest`, unless the queue is full |
| Sessions.Session.OnClientRead | src/session.cpp:17-87 | Parser, request in hand, input, upstream, read bit, close flag and error equal `SessionMachine.ClientRead`. When a request cannot be parsed the client's send buffer grows by the error and both EPOLLOUT and the close flag are set; otherwise nothing is sent and at most EPOLLIN is cleared. After OK without that there is room for the next read |
| Sessions.Session.OnServerWrite | src/session.cpp:10-15 | A connected client's send buffer grows by the reply and both its bits are set; otherwise nothing happens |
| Sessions.Session.OnNewClientConnection | src/session.cpp:89-104 | There is room for the first read and EPOLLIN is set; parser, request and input are not touched |
| SessionRuns.ClientReadIsARun | src/session.cpp:17-87 | What one call of OnClientRead does to the upstream, from any session state, is a run of pushes of the protocol, as long as the session holds less than 2 GiB |
| Connections.WriteList.ListedOnce | src/epoll.cpp:154-169 | A connection's EPOLLOUT bit is set iff it is in the write list, and it is there at most once |
| Connections.WriteList.PendingIsListed | src/connections.cpp:75-165 | In every state that the methods of connections and of the list lead to, a connection with bytes to send is in the write list iff its socket did not break under the last write; each method has this invariant in its contract |
| Connections.Connection.constructor | src/connections.cpp:41-43 | A new connection has nothing to send, is not listed, and leaves the list and the other connections in order |
| Connections.Connection.SetWritable | src/epoll.cpp:154-169 | The bit and the list change together: appended at the end when newly set, its own position erased when cleared |
| Connections.Connection.SetReadable | src/epoll.cpp:171-213 | Only EPOLLIN changes, and no connection becomes unscheduled; epoll_ctl adds to an empty mask, deletes an emptied one, modifies otherwise, and is not called without change or socket |
| Connections.Connection.WriteToBuffer | src/connections.cpp:75-95 | The send buffer and the bytes submitted grow by the data, a reset flag implies the close flag; the connection is listed and all others stay scheduled |
| Connections.Connection.Write | src/netio.cpp:323-353 | The first bytes of the send buffer, as many as `write` returned, are written and exactly the rest is kept, none when the call failed; OK iff all were taken, TryAgain for fewer, zero or EAGAIN, else the error number, which alone clears the bit |
| Connections.Connection.OnWritable | src/connections.cpp:97-165 | The first bytes, as many as `write` returned, leave the send buffer. With a close pending and bytes to send the connection is closed and Closed returned unless the socket broke, in which case the error is returned; otherwise OK. The bit is cleared iff there was nothing to write, or the socket broke, or everything was written and no close is pending; with an empty buffer a pending close is not carried out; all connections stay scheduled |
| Connections.Connection.Read | src/netio.cpp:358-386 | On success the bytes read, all of them or as many as there is free room for, come behind the buffer's text. Without room Full and EPOLLIN is cleared; EAGAIN and EINTR are to be tried again; end of stream and other errors are returned and close; nothing is added then |
| Connections.WriteList.HandleWriteEvents | src/netio.cpp:307-318 | Each connection listed at the start is visited exactly once and in order, the sweep ends though entries remove themselves, and the list keeps exactly those that still have to write, in order; every connection, listed or not, stays scheduled |
| Protocol.StepKeeps | src/upstream.cpp:92-266 | Every step of sessions, socket and server keeps the invariant that ties queue, streams, deliveries and auth flag together |
| LinkSafety.RepliesMatchRequests | src/upstream.cpp:193-266 | In every run the k-th reply handed on is byte for byte the server's k-th answer and goes to the reader of the k-th accepted request, the queue lists the other readers in order, and no call fails |
| LinkSafety.StreamsAreWhole | src/upstream.cpp:236-266 | In every run the bytes sent and to be sent are the accepted requests in order, the bytes received a prefix of the answers that covers all replies handed on |
| LinkSafety.DrainedLinkHasAnswered | src/upstream.cpp:193-234 | When nothing is under way, every request with arguments has had its reply and the parser is at rest |
| LinkSafety.RightRequestIff | src/upstream.cpp:209-222 | The i-th answer is handed to the reader of the i-th accepted request; that is the request it answers iff no request without arguments was accepted up to there |
| LinkSafety.EmptyRequestTakesTheNextReply | src/session.cpp:52-76 | A run in which the sender of an empty request gets the reply to another session's request |
| LinkSafety.AuthGate | src/upstream.cpp:92-139 | With a password the stream to the server starts with AUTH, and a session's request is accepted only after a reply to AUTH that is a status line |
| LinkSafety.LetInIff | src/upstream.cpp:30-37 | In every run clients are let in iff there is no password or the first reply has come and starts with a plus sign |
| LinkSafety.PushIsAcceptedIff | src/upstream.cpp:92-130 | In every run a session's request is accepted iff fewer requests than the capacity wait for replies and clients are let in; then its reader is queued last and its bytes are to be sent, otherwise nothing changes |
| LinkSafety.AuthOnTheWire | src/upstream.cpp:18-23 | The bytes of the AUTH request for any password |

## Left out

- Close, reconnect and connection destruction: the queue, the auth flag and the write list are not reset there; `Close` is recorded as a flag, and runs with it are not modelled.
- Sockets, `epoll_ctl`, address handling, accept, listen and connect: foreign calls; `read` and `write` are their results.
- Connections.Connection.OnWritable: the write event handler is not modelled, nothing in the repository sets it.
- Sessions.Session.OnClientRead: the buffers of the session and the send buffers of its connection and of the upstream connection are taken from different memories; the text of an error is a parameter.
- Upstreams.Upstream.Init: the send buffer of the connection is taken from another memory than the input buffer.
- LinkSafety.RepliesMatchRequests: the server is assumed to answer requests with arguments in order with framable replies, and pushed requests to have int32 lengths; the link stays up.
- SessionRuns.ClientReadIsARun: a session that holds 2 GiB or more is excluded, as its lengths could not be read back as int32.
- Buffers.Memory.AllocRef: always succeeds; `ReallocRef`, which nobody calls, and 32-bit overflow of sizes are not modelled.
- Buffers.Buffer.Assign: self-assignment of a buffer that nobody shares a block with is excluded; the code would go on with a freed block.
- Buffers.Buffer.AppendBuffer: appending a buffer without a block to another one without, which writes through a null pointer, and appending a buffer of the same block that does not start where this one ends, for which see `ShareIff`, are excluded.
- Buffers.Buffer.Skip: a negative start is not modelled, nobody passes one.
- Blocks: the bytes of a block are a sequence in a map from addresses, not an array; a copy inside a block is a move.
- Resumption.OddLengths: the int32 sum of a length above 2^31-3 and two, which the language leaves open, is taken to wrap around.
- Identities of readers are constant; a session id does not change after it was given.
- The text of error messages, logging, metrics, options, the server main loop, cluster mode and the source manager.
