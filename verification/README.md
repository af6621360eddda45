# angel: a verified model of its hard parts

angel is a C++ reactor network library with protocol codecs on top. This project models, in Dafny,
the parts of it whose correctness is hardest to see from the code, and proves what they promise for
all inputs, all kernel answers and all interleavings.

| file | models |
|---|---|
| `Bytes.dfy` | octets, searching, splitting, trimming |
| `Buffer.dfy` | the network buffer as an array with two indices |
| `Connection.dfy`, `ConnectionProof.dfy`, `ConnectionRuns.dfy`, `ConnectionClose.dfy`, `ConnectionEnd.dfy` | the ordered send pipeline and the life cycle of a connection |
| `EventLoop.dfy` | the cross-thread task hand-off of the event loop |
| `Timer.dfy` | the timer store and its tick |
| `ThreadPool.dfy` | the thread pool and its shutdown |
| `Dispatch.dfy` | the poll and select back ends and the interest flags of a channel |
| `QuotedPrintable.dfy` | the quoted-printable codec |
| `MultipartSyntax.dfy`, `MultipartParser.dfy`, `MultipartProof.dfy`, `MultipartStream.dfy`, `MultipartMail.dfy`, `MultipartInput.dfy` | the MIME multipart writer and the resumable recursive parser |
| `WebSocketCodec.dfy`, `WebSocket.dfy`, `WebSocketMessages.dfy`, `WebSocketRules.dfy` | WebSocket framing, masking and fragmentation |
| `Chunked.dfy`, `ChunkedProof.dfy`, `ChunkedStream.dfy`, `ChunkedInput.dfy` | HTTP chunked coding, both directions |
| `ByteRange.dfy` | HTTP byte ranges and multipart/byteranges |
| `Dns.dfy` | domain names on the wire, with compression |
| `Smtp.dfy`, `SmtpOutcome.dfy` | the SMTP client session |

Where the source updates an object step by step, a class does the same and each of its methods is
proved equal to a function on values; what the source promises is then proved about that function
over whole runs. What comes from outside is an input: answers of `write` and `sendfile`, reports of
`poll` and `select`, the clock, the calls that user callbacks make, the base64 coder (`b64`, `ask`).
Outside `Buffer.dfy` a buffer is its contents; `Buffer.dfy` proves that the array with its two
indices behaves as that queue of octets.

## Where the code falls short of its promise

Each of these is a proved "if and only if" or a proved run, on the code as it is.

- A direct write that would block on an open connection queues the octet before the data and drops
  the last one (src/connection.cc:187-198): `ConnectionRuns.KeptExactlyUnlessBlocked`.
- A graceful close drops send-complete handlers: a close called with no bytes and files queued, but
  with handlers, closes at once (src/connection.cc:144-164): `ConnectionClose.HandlersRunUnlessCut`,
  with the witness `ConnectionClose.CloseDropsHandler`.
- A chunked body read in such a way that a read ends exactly behind the data of a chunk is cut short
  (src/httplib/httplib.cc:162-171): `ChunkedStream.RecoveredExactly`. Chunks of a single octet are
  safe, because a size line is only taken with two octets behind it. An empty chunk is sent as the
  last chunk and ends the body where it stands (src/httplib/httplib.cc:467-477):
  `ChunkedStream.CutAtEmpty`.
- A periodic timer that cancels itself in its own callback comes back (src/timer.cc:72-89):
  `Timer.CancelFromCallback`.
- A control frame between the fragments of a WebSocket message is taken for an error, although
  section 5.4 of RFC 6455 allows it (src/websocket/ws-server.cc:267-279):
  `WebSocket.ControlOnlyBetweenMessages`.
- A message given to `send_fragment` in one final piece goes out as a continuation frame with nothing
  to continue (src/websocket/ws-server.cc:398-409), and arrives with whatever type the receiver last
  saw: `WebSocket.FragmentRoundTrip`, with the witness `WebSocket.LoneFragmentDelivers`.
- A form-data part without Content-Transfer-Encoding loses its value when parsed
  (src/mime/mime.cc:500-516): `MultipartMail.BodyKeptExactly`, with `MultipartMail.FormValueLost` for
  every part that `add_text_part` writes (src/mime/mime.cc:290-297).
- A part whose Content-Type has no parameter breaks the parser, which copies the value with a length
  of npos (src/mime/mime.cc:359-364): `MultipartMail.BreaksOnBareType`. The library writes such parts
  itself, an attachment without a name for one (src/mime/mime.cc:148-151):
  `MultipartMail.AttachmentBreaks`.
- An epilogue is returned only if no read ends right behind the close delimiter or one octet later, and
  one that does not end in CRLF keeps the parser waiting (src/mime/mime.cc:425-446):
  `MultipartStream.EpilogueExactly`.
- A preamble of more than one line, which section 5.1.1 of RFC 2046 allows, is refused
  (src/mime/mime.cc:415-424, 557-562): `MultipartInput.SecondLineRefused`.
- In a header line without a ':' the parser takes the next ':' of the buffer and copies a value of
  negative length (src/mime/mime.cc:331-336): `MultipartInput.LineWithoutColon`.
- A part whose data decodes to nothing is taken for an error (src/mime/mime.cc:500-516):
  `MultipartInput.EmptyBodyRefused`.
- A chunk extension, which section 3.6.1 of RFC 2616 tells a receiver to ignore, is refused
  (src/httplib/httplib.cc:129-158): `ChunkedInput.ExtensionRefused`.
- The size line of a chunk of 16^13 octets or more is cut (src/httplib/httplib.cc:467-468):
  `ChunkedInput.LineCutExactly`.
- A declared WebSocket payload length close to 2^64 makes the length check wrap around
  (src/websocket/ws-server.cc:255-257): `WebSocketRules.OverrunExactly`.
- Once quit is seen, wake bytes pile up unread without limit while the exit loop runs
  (src/evloop.cc:80-87): `EventLoop.DrainFillsPipe`.
- The comment on `parse_dns_name` promises "" for an error (src/dns/resolver.cc:127-150). A malformed
  name comes back as a name if a label stands before a pointer that is followed, or if it is malformed
  only by length octets of 64 to 191, which RFC 1035 reserves and the reader takes for labels:
  `Dns.ErrorReported`, with the witnesses of `Dns.ReservedLengthRead`.
- A name that is only a zero octet, or ends in a pointer to one, fails an assertion
  (src/dns/resolver.cc:141-144): `Dns.NameIsRead`.
- A name asked for with a trailing dot never matches the reply to it (src/dns/resolver.cc:656-660):
  `Dns.EchoMatches`.
- A task that passes the unlocked state test of `executor` and is pushed during a shutdown is lost if
  and only if every worker has already exited and no later push adds one
  (include/angel/thread_pool.h:38-49): `ThreadPool.LostExactly`, with the witness
  `ThreadPool.LateTaskLost`.
- Lines of a mail that start with a dot are not doubled, so the server shortens such a mail
  (src/smtplib/smtplib.cc:195-200): `Smtp.BodyArrives`.
- AUTH offered on the last line of the EHLO reply is not seen (src/smtplib/smtplib.cc:229-236): in
  `Smtp.WillingServer` the exchange takes place if and only if an earlier line offers it.
- A byte position of 2^63 or more is answered with 416 even where the request can be satisfied
  (src/httplib/httplib.cc:1067-1086): `ByteRange.SpecResolved`.
- POLLHUP alone triggers no handler (src/poll.cc:72-85): `Dispatch.HangupIgnored`.

## Model

| member | source | states |
|---|---|---|
| Buffer.FirstInFirstOut | src/buffer.cc:34-53 | for every sequence of appends and retrieves: what was taken followed by what is left is what was there followed by what was appended |
| Buffer.Buffer.MakeSpace | src/buffer.cc:21-32 | contents kept, room for the length, the array replaced only if moving to the front is not enough |
| Buffer.Buffer.MoveToFront | src/buffer.cc:25-28 | the overlapping copy within one array keeps the contents |
| Buffer.Buffer.AppendBytes | src/buffer.cc:39-44 | contents grow by the data at their end |
| Buffer.Buffer.RetrieveBytes | src/buffer.cc:46-53 | contents lose that many octets at the front, or all |
| Buffer.Buffer.CStr | src/buffer.cc:55-60 | a zero octet behind unchanged contents |
| Buffer.Buffer.ReadFd | src/buffer.cc:71-91 | all octets of a scattered read arrive in order, also beyond the free space; a failed read gives -1 and leaves the contents |
| Buffer.Buffer.Swap | src/buffer.cc:62-67 | the two contents change places |
| Buffer.Buffer.Search | include/angel/buffer.h:48-56 | offset of the first occurrence of the pattern, -1 for none and for an empty buffer |
| Buffer.Buffer.HasPrefix | include/angel/buffer.h:38-41 | whether the contents begin with the text |
| ConnectionRuns.PipelineInEveryRun | src/connection.cc:93-236 | in every run without a blocked direct write: what went out is a prefix of what was submitted, an open connection owes exactly the rest in id order, queued lengths sum to the output buffer, write interest is on exactly while something is queued, close is reported exactly once |
| ConnectionRuns.RunKeepsInv | src/connection.cc:93-244 | every run from a state that balances what went out, what is owed and what was submitted ends in such a state |
| ConnectionRuns.StepKeepsInv | src/connection.cc:93-244 | one event of any kind keeps that balance, whatever the kernel answers and the callbacks do |
| ConnectionProof.HandleWriteKeepsInv | src/connection.cc:93-142 | a writable event keeps the balance, only adds to what went out, and loses nothing unless the socket fails |
| Connection.QueueIds | include/angel/connection.h:137-146 | ids of the three queues are increasing, disjoint and exactly next_id..send_id-1; queued lengths sum to the buffered octets |
| Connection.PushLast | src/connection.cc:198-244 | queueing at the shared counter adds to the end of what is owed and disturbs no head |
| ConnectionProof.CallsAppend | src/connection.cc:132-137 | calls made from inside a handler only append behind everything owed, or close with nothing owed |
| ConnectionRuns.HandlerRunsInTurn | src/connection.cc:132-137 | a send-complete handler runs after all data submitted before it and before any submitted later |
| ConnectionRuns.KeptExactlyUnlessBlocked | src/connection.cc:186-198 | an event keeps the account, whatever octet precedes the data, if and only if it is not a direct write answered with EAGAIN or EINTR |
| ConnectionRuns.BlockedDirectLosesData | src/connection.cc:187-198 | a direct write that would block breaks the account whenever the preceding octet differs from the first |
| ConnectionRuns.GracefulCloseLosesNothing | src/connection.cc:138-174 | without peer EOF and fatal errors a closed connection has handed over every octet submitted, in order |
| ConnectionRuns.PhaseOnlyAdvances | src/connection.cc:144-164 | in every run the state only moves Connected, Closing, Closed |
| ConnectionProof.ClosedIsFinal | src/connection.cc:144-178 | after Closed nothing is submitted, sent or reported |
| ConnectionRuns.WritableMakesProgress | src/connection.cc:93-142 | a writable socket always moves a non-empty pipeline forward |
| ConnectionEnd.ClosesExactly | src/connection.cc:65-236 | an event closes an open connection if and only if it is an end of file, a fatal read error, a write or sendfile really tried that fails for good, a close by the user or by the running handler with no bytes and files queued, or the last step of a pending close; one close is then reported |
| ConnectionEnd.RunClosesExactly | src/connection.cc:65-236 | a run ends closed if and only if one of its events closes, with one report |
| ConnectionEnd.InputEnds | src/connection.cc:65-80 | end of file and a fatal error close at once, put nothing out and report one close; a passing error does nothing |
| ConnectionEnd.ClosingExactly | src/connection.cc:132-164 | a connection that stays open is waiting to close if and only if it was before or close was called |
| ConnectionEnd.WritableTakes | src/connection.cc:93-142 | a writable event puts out exactly what the kernel took of the stream whose turn it is, then of the file whose turn it then is, then the handler whose turn it then is |
| ConnectionEnd.CallTakes | src/connection.cc:176-244 | a call submits what it was given and puts out exactly what a direct write, tried only on an idle connection, took of it |
| ConnectionEnd.CloseHandlerRuns | src/connection.cc:157-163 | the close handler runs on a connection that is closed already: of all it does only the handlers it sets are left |
| ConnectionClose.HandlersRunUnlessCut | src/connection.cc:132-164 | in every run without peer EOF and fatal errors, a closed connection has put out every octet and run every handler if and only if no close was called, by the user or a handler, with no bytes and files but some other handler queued |
| ConnectionClose.StepCuts | src/connection.cc:132-164 | one event ends a connection with something undone exactly if it is such a close |
| ConnectionClose.CloseDropsHandler | src/connection.cc:144-164 | for every handler: queued on an idle connection that is then closed, it never runs |
| ConnectionClose.DrainCompletes | src/connection.cc:93-142 | as many productive writable events as tokens left, those nested in handlers included, drain a connection whatever its handlers send, queue and close; if none closes it, everything is out and a pending close, and only that, has completed |
| ConnectionClose.MoveLightens | src/connection.cc:93-142 | every productive event lowers the weight of what is left, although the handler it runs may add to it |
| ConnectionClose.QuietWeight | src/connection.cc:132-137 | if no queued handler makes calls, that weight is the number of tokens owed |
| ConnectionRuns.ConnectionObject.DoHandleClose | src/connection.cc:144-164 | the fields change as the specification of a close says, close handler included |
| ConnectionRuns.ConnectionObject.DoSend | src/connection.cc:176-207 | sending bytes changes the object as the pipeline specification says: what the direct write took goes out, the rest is queued under the next id |
| ConnectionRuns.ConnectionObject.DoSendFile | src/connection.cc:209-236 | sending a file changes the object as the pipeline specification says: what sendfile took goes out, the rest is queued under the next id |
| ConnectionRuns.ConnectionObject.DoSetSendCompleteHandler | src/connection.cc:238-244 | a handler is queued under the next id and write interest goes on, also on a closed connection, as the specification says |
| ConnectionRuns.ConnectionObject.WriteFrontBytes | src/connection.cc:102-116 | the byte stage of a writable event changes the object as the specification says, for every answer of write; the result tells whether it closed |
| ConnectionRuns.ConnectionObject.WriteFrontFile | src/connection.cc:117-131 | the file stage of a writable event changes the object as the specification says, for every answer of sendfile; the result tells whether it closed |
| ConnectionRuns.ConnectionObject.RunFront | src/connection.cc:132-137 | the handler whose turn it is runs with all calls it makes and only then leaves its queue, as the specification says |
| ConnectionRuns.ConnectionObject.Finish | src/connection.cc:138-141 | with nothing left, write interest is dropped and a pending close completes, as the specification says |
| ConnectionRuns.ConnectionObject.DoHandleWrite | src/connection.cc:93-142 | a whole writable event changes the object as the specification says, stage by stage |
| EventLoop.NoTaskLost | src/evloop.cc:63-174 | in every interleaving tasks run at most once, in the order of the lock, and the loop never waits on queued tasks without an unread or owed wake byte |
| EventLoop.StepKeepsInv | src/evloop.cc:63-174 | every step of the loop or of a caller keeps queued = ran + batch + vector and the wake rule |
| EventLoop.RunKeepsInv | src/evloop.cc:63-174 | in every interleaving the tasks queued are those run, in the batch and in the vector, in that order, and the wake rule holds |
| EventLoop.ExitsOnlyWhenEmpty | src/evloop.cc:80-87 | run returns only when everything queued has run |
| EventLoop.TurnRunsEverything | src/evloop.cc:66-104 | an undisturbed turn of the loop runs everything queued before it, reads one byte at most, and goes on to the exit loop if and only if quit has been seen |
| EventLoop.QuitExactly | src/evloop.cc:63-141 | in every interleaving the calls of quit are the quit bytes read and those still unread, the flag is set if and only if one has been read, and the main loop is left only then; without a call of quit run never returns |
| EventLoop.PipeInOrder | src/evloop.cc:121-141 | in every interleaving what was written to the pipe is what was read followed by what is unread |
| EventLoop.OfferedIsQueued | src/evloop.cc:162-174 | in every interleaving the tasks whose callers held the lock are those queued, in that order, and at most one still in the hands of its caller |
| EventLoop.ExitLoopEnds | src/evloop.cc:80-87 | left alone, the exit loop runs what is queued and returns |
| EventLoop.AtMostTwoUnread | src/evloop.cc:66-174 | with a faithful wait at most two task bytes are unread, and at a wait at most one plus one for a non-empty vector |
| EventLoop.StepKeepsPipeBound | src/evloop.cc:121-174 | every step keeps the bound on unread task bytes until quit is seen |
| EventLoop.DrainFillsPipe | src/evloop.cc:80-87 | for every n there is a run, all of whose waits report the wake channel, that ends after quit with n unread task bytes |
| Timer.TickCatchesUp | src/timer.cc:64-91 | a timer that no other due task cancels fires once for each of its due times, whatever the callbacks schedule; a periodic one ends at its next time, a one-shot is gone, one not due is untouched |
| Timer.TickNeverExtra | src/timer.cc:64-91 | cancelled or not, the firings of a timer in a tick are a prefix of its due times |
| Timer.TickInOrder | src/timer.cc:64-91 | a tick fires in expire order, never early, leaves nothing due and keeps set and index in step |
| Timer.FirstComeFirstRun | src/timer.cc:42-91 | in a tick no timer runs before one that stands before it, equal expire times included, unless another due timer cancels that one |
| Timer.InsertBehind | src/timer.cc:42-46 | a new timer stands behind all that expire no later and before all that expire later, and changes no order |
| Timer.SetFirstRunsFirst | src/timer.cc:28-46 | of two timers set for the same time the one set first stands first |
| Timer.DueCount | src/timer.cc:82-89 | a task with expiry e and interval v is due floor((now-e)/v)+1 times, at e+i*v, and its next time is after now by at most v |
| Timer.FireSettles | src/timer.cc:64-91 | each callback of a tick takes something off the sum of now-expire+1 over the due tasks, so the tick ends |
| Timer.FireIndex | src/timer.cc:72-89 | the index after one turn of tick is exactly what the callback left alone, what it scheduled and did not cancel again, and the running timer one interval later if periodic |
| Timer.CancelFromCallback | src/timer.cc:72-89 | cancelling from a callback works for every timer but the running one if that is periodic |
| Timer.NeverReturns | src/timer.cc:28-33 | an id that is gone stays gone and does not fire |
| Timer.OpsIndex | src/timer.cc:28-62 | the index after all timer calls of a callback is exactly the tasks they left alone and those they scheduled and did not cancel again |
| Timer.NewTaskAt | src/timer.cc:28-46 | call i schedules the task with the next free id, with its expire time, interval and callback; it is there if and only if no later call of the callback cancels it |
| Timer.TimerQueue.Timeout | src/timer.cc:17-26 | -1 for no timer, 0 for a late one, otherwise the distance to the first expiry, which no timer undercuts |
| Timer.TimerQueue.AddTimerInLoop | src/timer.cc:42-46 | both containers get the task, and stay in step |
| Timer.TimerQueue.CancelTimerInLoop | src/timer.cc:49-62 | the scan over equal expire times removes exactly the task with the id |
| Timer.TimerQueue.RunCallback | src/timer.cc:28-62 | the timer calls of a callback change the store one after another, and both containers stay in step |
| Timer.TimerQueue.TickNow | src/timer.cc:64-91 | the loop ends and leaves the store that the tick specification gives |
| ThreadPool.ShutdownRunsEverything | include/angel/thread_pool.h:36-95 | in every interleaving without stop and without late tasks, when all workers have exited the queue is empty and every submitted task has run exactly once |
| ThreadPool.StartedInOrder | include/angel/thread_pool.h:36-82 | tasks start in submission order, none twice; a task left behind by a shutdown came after it began |
| ThreadPool.LostExactly | include/angel/thread_pool.h:36-95 | in every interleaving without stop, when all workers have exited, the tasks not run are exactly those pushed since the last state with a worker that had not exited; everything submitted has run once if and only if there are none |
| ThreadPool.LateTaskLost | include/angel/thread_pool.h:36-50 | the witness: a run in which a task is pushed after the only worker has exited and is never started |
| ThreadPool.QueuedTaskAttended | include/angel/thread_pool.h:62-82 | no lost wake-up: while running, a queued task has an awake worker or a pending notification |
| ThreadPool.StepKeepsInv | include/angel/thread_pool.h:36-95 | every action, spurious wake-ups included, keeps conservation of tasks and the wake-up rule |
| ThreadPool.ShutdownProgress | include/angel/thread_pool.h:62-82 | after a shutdown every worker step shortens the queue or brings a worker nearer to its exit |
| ThreadPool.ShutdownNotStuck | include/angel/thread_pool.h:62-95 | after the broadcast some worker can step until all have exited |
| ThreadPool.ShutdownEnds | include/angel/thread_pool.h:51-82 | from every state of an announced shutdown the workers alone reach the state in which all have exited |
| ThreadPool.StopStartsNothing | include/angel/thread_pool.h:56-73 | after stop, and as long as no shutdown follows, no further task is started in any interleaving |
| ThreadPool.StopEnds | include/angel/thread_pool.h:56-82 | from every announced stop the workers alone reach, after a number of steps fixed by what they are doing, the state in which all have exited; what was running is finished and what was queued is left |
| ThreadPool.StopProgress | include/angel/thread_pool.h:62-82 | every step of a worker of a stopped pool is one of the steps to its exit |
| ThreadPool.IdleSleeps | include/angel/thread_pool.h:62-82 | without new tasks the workers of a running pool are all asleep after a bounded number of steps |
| ThreadPool.WorkersGrow | include/angel/thread_pool.h:36-49 | a worker is added exactly when a task is pushed to a cached pool whose queue is as long as its list of workers |
| ThreadPool.PoolSize | include/angel/thread_pool.h:36-49 | in every interleaving a fixed pool keeps its size and a cached one grows by at most one worker for each task |
| Dispatch.BackendsAgree | src/poll.cc:28-70 | after every sequence of add and remove the poll and select back ends hold the same map, the one of the calls |
| Dispatch.WatchedMeans | src/dispatcher.h:17-22 | an event is watched if and only if some add asked for it and no later remove took it back |
| Dispatch.NoIdleEntry | src/dispatcher.h:20-22 | no descriptor is kept without an event unless one was added for none |
| Dispatch.PollAddRefines | src/poll.cc:28-45 | add keeps the index a bijection onto the slots and adds the events to the map |
| Dispatch.PollRemoveRefines | src/poll.cc:47-70 | remove with swap-with-last keeps the bijection and takes the events off the map |
| Dispatch.SelectAddRefines | src/select.cc:28-36 | add keeps maxfd an upper bound and adds the events to the map |
| Dispatch.SelectRemoveRefines | src/select.cc:38-47 | remove keeps maxfd an upper bound although it steps down by one, and takes the events off the map |
| Dispatch.PollBase.AddFd | src/poll.cc:28-45 | the vector and the index of the object change as the specification of add says, and the map they stand for gains the events |
| Dispatch.PollBase.RemoveFd | src/poll.cc:47-70 | the vector and the index of the object change as the specification of remove says, and the map they stand for loses the events |
| Dispatch.PollBase.Wait | src/poll.cc:86-107 | stopping at the reported count delivers exactly the slots with a report, in order |
| Dispatch.ReportedMeans | src/poll.cc:90-99 | a channel is activated if and only if its slot has a report, with the translated events |
| Dispatch.HangupIgnored | src/poll.cc:72-84 | a report translates to no event if and only if it has none of POLLIN, POLLOUT, POLLERR |
| Dispatch.EventPerBit | src/poll.cc:72-84 | POLLIN gives read, POLLERR error, POLLOUT write, and POLLIN with POLLHUP alone write as well |
| Dispatch.SelectBase.AddFd | src/select.cc:28-36 | the descriptor sets and maxfd of the object change as the specification of add says, and the map they stand for gains the events |
| Dispatch.SelectBase.RemoveFd | src/select.cc:38-47 | the descriptor sets and maxfd of the object change as the specification of remove says, and the map they stand for loses the events |
| Dispatch.SelectBase.Wait | src/select.cc:70-85 | counting channels against reported bits never misses a ready descriptor, in any order of the hash set |
| Dispatch.Channel.Enable | src/channel.cc:64-89 | filter and back end agree before and after, other descriptors untouched |
| Dispatch.Channel.Disable | src/channel.cc:73-98 | filter and back end agree before and after, other descriptors untouched |
| Dispatch.Channel.DisableAll | src/channel.cc:100-110 | the descriptor leaves the back end, others untouched |
| QuotedPrintable.RoundTrip | src/mime/qp.cc:55-142 | every byte string survives encoding and decoding |
| QuotedPrintable.LinesFolded | src/mime/qp.cc:55-93 | every output line has at most 76 characters and does not end in a space or tab |
| QuotedPrintable.OnlyEscapes | src/mime/qp.cc:55-93 | the output is printable octets and blanks, '=' with two upper case hex digits, and soft line breaks, and nothing else |
| QuotedPrintable.PrintableUnchanged | src/mime/qp.cc:55-93 | a line of at most 75 printable octets that does not end in a blank is left as it is |
| QuotedPrintable.NoEarlyBreak | src/mime/qp.cc:55-81 | the loop breaks a line only where at most three octets of it are left |
| QuotedPrintable.MalformedKept | src/mime/qp.cc:97-142 | what the decoder keeps of malformed escapes |
| QuotedPrintable.NoBoundaryInside | src/mime/qp.cc:55-93 | "=_" never occurs in the output |
| QuotedPrintable.FixEndSound | src/mime/qp.cc:82-92 | the correction of a final blank keeps data and line limit and ends visibly |
| QuotedPrintable.HexRoundTrip | include/angel/mime.h:31-49 | a hex pair reads back as its octet |
| QuotedPrintable.EncodeLoop | src/mime/qp.cc:55-93 | the index-rewinding loop ends and computes the encoding |
| QuotedPrintable.EndLine | src/mime/qp.cc:82-92 | the tail of the encoder computes the corrected end |
| QuotedPrintable.DecodeLoop | src/mime/qp.cc:97-142 | the decoding loop computes the decoding, malformed escapes included |
| MultipartMail.MailRoundTrip | src/mime/mime.cc:397-447 | every message tree of non-empty groups, quoted-printable leaves of any data and 7bit leaves without the delimiter is read back as itself, in any pieces: NotEnough until the last octet, then Ok |
| MultipartMail.MailGood | src/mime/mime.cc:56-131 | what the constructors build is well formed, and its finished nodes read back as the message |
| MultipartMail.EncodedAvoidsDelim | src/mime/mime.cc:179-189 | a generated delimiter never occurs in quoted-printable data |
| MultipartMail.GroupKind | src/mime/mime.cc:241-251 | the Content-Type of a multipart is read with the same boundary |
| MultipartMail.TextKind | src/mime/mime.cc:114-131 | the Content-Type of a text part is read as a leaf |
| MultipartMail.BodyKeptExactly | src/mime/mime.cc:500-516 | a 7bit body is kept if and only if the encoding field is present or the body is empty |
| MultipartMail.FormValueLost | src/mime/mime.cc:290-297 | for every name and value, a form part is read, in any pieces, as a leaf with an empty body |
| MultipartMail.BreaksOnBareType | src/mime/mime.cc:457-496 | at every part of every nesting and with anything behind it: once the header block of a part is complete the parser breaks there if and only if the part has a Content-Type without ';' |
| MultipartMail.AttachmentBreaks | src/mime/mime.cc:148-151 | the witness: every message whose first part is written by application(data) breaks the parser |
| MultipartStream.PrefacedRoundTrip | src/mime/mime.cc:397-447 | for every well-formed tree, with or without a preamble line, and every split into reads: NotEnough as long as an octet is missing, then Ok with that preamble and the tree |
| MultipartStream.EpilogueExactly | src/mime/mime.cc:425-446 | with CRLF epilogue CRLF behind the tree, in any reads: the epilogue is returned if and only if no read ends right behind the close delimiter or one octet later, else the answer is given there without it; before its last octet the parser waits |
| MultipartInput.SecondLineRefused | src/mime/mime.cc:415-424 | behind one line of preamble anything but the dash-boundary line is an error |
| MultipartInput.DashPadding | src/mime/mime.cc:557-564 | blanks behind the opening boundary make no difference, anything else is an error |
| MultipartInput.DelimPadding | src/mime/mime.cc:602-614 | blanks behind a delimiter make no difference, anything else is an error |
| MultipartInput.ClosePadding | src/mime/mime.cc:594-600 | blanks behind the close delimiter make no difference |
| MultipartInput.FieldTaken | src/mime/mime.cc:321-345 | a header line records its value without the blanks around it, whatever they are |
| MultipartInput.LineWithoutColon | src/mime/mime.cc:331-336 | a header line without a ':' is an error if none stands behind it in the buffer, and otherwise breaks the parser |
| MultipartInput.HeaderMapMeans | src/mime/mime.cc:337-341 | of the fields with a value, names compared without case, the first counts |
| MultipartInput.KindByType | src/mime/mime.cc:359-390 | for every type, subtype and list of attributes, quoted or not, in any case: multipart with a boundary opens a multipart with that boundary, multipart without one is an error, anything else is a leaf |
| MultipartInput.NotedMeans | src/mime/mime.cc:375-385 | of the attributes of a name, compared without case, the first counts |
| MultipartInput.BadTypeIsError | src/mime/mime.cc:475-478 | a value that is not type/subtype is an error |
| MultipartInput.BadParameterIsError | src/mime/mime.cc:346-390 | a parameter without '=', without a value or with an open quote is an error |
| MultipartInput.EncodedBodyKept | src/mime/mime.cc:502-516 | data in base64 or quoted-printable, named in any case, is decoded to what was encoded |
| MultipartInput.EmptyBodyRefused | src/mime/mime.cc:502-516 | a part whose data decodes to nothing is an error |
| MultipartStream.StreamingRoundTrip | src/mime/mime.cc:397-447 | for every well-formed tree of parts and every split of its text into reads: NotEnough as long as an octet is missing, then Ok with the tree |
| MultipartStream.ReadOnce | src/mime/mime.cc:397-447 | one read leaves the parser at a later position of the text, preamble included, as long as the tree is not complete |
| MultipartProof.FeedMulti | src/mime/mime.cc:553-617 | from every stage of every nesting and with any part of the text there, a call finishes the tree or stops at a later position with the rest unread |
| MultipartProof.FeedHeaderBlock | src/mime/mime.cc:321-345 | a header block of which a prefix is there yields the fields that are complete and leaves the rest |
| MultipartProof.FindDelim | src/mime/mime.cc:582-588 | a delimiter is found right behind data that does not contain it; no match straddles |
| MultipartSyntax.Str | src/mime/mime.cc:260-278 | the writer with its final two pop_back calls produces the text of the tree |
| MultipartParser.ParseHeaderLoop | src/mime/mime.cc:321-345 | the header loop computes what the specification of a header block says |
| WebSocketCodec.SplitIndependent | src/websocket/ws-server.cc:65-91 | events and final session do not depend on how the stream is split into reads |
| WebSocketCodec.HandleAppend | src/websocket/ws-server.cc:65-91 | handling a buffer and then the rest equals handling both at once |
| WebSocketCodec.HandleSettles | src/websocket/ws-server.cc:65-91 | what is left unread cannot be decoded further |
| WebSocketCodec.DecodeStable | src/websocket/ws-server.cc:233-344 | more octets never change a decided frame |
| WebSocketCodec.NetRoundTrip | src/websocket/ws-server.cc:233-261 | network byte order reads back as the number |
| WebSocketCodec.MaskTwice | src/websocket/ws-server.cc:281-344 | masking twice is the identity |
| WebSocketCodec.XorFlipsBits | src/websocket/ws-server.cc:320-323 | masking flips exactly the bits of an octet that are set in the octet of the key |
| WebSocketCodec.MaskFlipsBits | src/websocket/ws-server.cc:320-323 | bit by bit: octet i is masked with octet i modulo 4 of the key |
| WebSocket.FrameDecodes | src/websocket/ws-server.cc:233-344 | a frame in front of a buffer decodes to its payload for every form of its length, needlessly long ones included, and every mask, consuming exactly its octets; it is rejected only for the fragment order |
| WebSocket.StreamDelivers | src/websocket/ws-server.cc:65-91 | a buffer of frames gives the events that the frames mean |
| WebSocket.FramesInAnyReads | src/websocket/ws-server.cc:65-91 | however the octets of any frames are split into reads, the events are those the frames mean |
| WebSocketMessages.MessagesAreGroups | src/websocket/ws-server.cc:65-91 | on every stream of frames, up to the first close or error: the messages delivered are, in order and none left out, the groups between one final frame and the next, each the concatenation of its payloads with the type its opening frame declares |
| WebSocketMessages.MessagesInAnyReads | src/websocket/ws-server.cc:65-91 | the same for the octets of the frames, however they are cut into reads |
| WebSocketMessages.EachMessage | src/websocket/ws-server.cc:267-344 | for every message of every stream there are frames i to j, of which only j is final and before which stands a final frame or none, whose payloads it concatenates |
| WebSocket.FragmentsDeliver | src/websocket/ws-server.cc:281-344 | an instance: an opening fragment and its continuations alone are delivered as exactly one message |
| WebSocket.ControlOnlyBetweenMessages | src/websocket/ws-server.cc:267-279 | a control frame is accepted if and only if no message is open |
| WebSocketRules.OrderExactly | src/websocket/ws-server.cc:263-279 | a frame is refused for its place if and only if it is not a continuation while a message is open, or a continuation that opens a message without ending it |
| WebSocketRules.DisorderReported | src/websocket/ws-server.cc:65-91 | such a frame is reported as an error and ends the session |
| WebSocketRules.OpcodeDecides | src/websocket/ws-server.cc:65-91 | over octets in any reads, a final frame with no message open gives the close, ping, pong or message of its opcode, and only a close ends the session |
| WebSocketRules.LongControlRefused | src/websocket/ws-server.cc:302-305 | a control frame with a length above 125 is refused |
| WebSocketRules.OverrunExactly | src/websocket/ws-server.cc:233-261 | the length check wraps around exactly for a declared length that, with the header, reaches 2^64, once so many octets are there as the wrapped sum says |
| WebSocketRules.LengthIsShortest | src/websocket/ws-server.cc:346-361 | the length is written in the fewest octets |
| WebSocketRules.SenderHoldsLittle | src/websocket/ws-server.cc:395-424 | less than 4096 octets of fragments wait, and one is held back exactly if it is not final and all that waits stays below that |
| WebSocket.FragmentAddsFrame | src/websocket/ws-server.cc:395-424 | each call adds exactly its frame to what is sent or pending, and a final one flushes |
| WebSocket.FragmentsAddFrames | src/websocket/ws-server.cc:395-424 | a whole fragmented message adds exactly its frames |
| WebSocket.FragmentRoundTrip | src/websocket/ws-server.cc:346-424 | any fragments arrive, through coalescing and any reads, as one message that is their concatenation; it has the sender's type if and only if there are two or more or the receiver was left with that type |
| WebSocket.LoneFragmentDelivers | src/websocket/ws-server.cc:395-410 | the witness: a lone final fragment goes out with opcode 0 and is delivered with the receiver's own type |
| WebSocket.MessageRoundTrip | src/websocket/ws-server.cc:346-379 | a whole message arrives as itself, for all three length forms |
| WebSocket.WebSocketContext.Unmask | src/websocket/ws-server.cc:281-344 | the loop computes the exclusive or of the payload with the repeated key |
| WebSocket.WebSocketContext.DoDecode | src/websocket/ws-server.cc:281-344 | the object decodes as specified and consumes only a whole frame |
| WebSocket.WebSocketContext.MessageHandler | src/websocket/ws-server.cc:65-91 | the loop over the buffer gives the specified events, rest and state |
| WebSocket.WebSocketContext.EncodeHeader | src/websocket/ws-server.cc:346-361 | first byte and length field go behind what is pending |
| WebSocket.WebSocketContext.Send | src/websocket/ws-server.cc:367-379 | one whole frame of the right type goes out behind what is pending |
| WebSocket.WebSocketContext.DoSendFragment | src/websocket/ws-server.cc:395-424 | the fragment's frame is added and flushed at 4096 octets or at the end, as the specification says |
| Chunked.SizeReadsBack | src/httplib/httplib.cc:129-138 | a chunk size reads back from its hexadecimal text |
| ChunkedInput.SizeMeans | src/httplib/httplib.cc:129-138 | however a size is spelled, with white space, sign, 0x and digits of either case, it is read as its number, clamped to 64 bits |
| ChunkedInput.OnlySizes | src/httplib/httplib.cc:129-138 | a line with any other character is no size |
| ChunkedInput.BadSizeRefused | src/httplib/httplib.cc:140-158 | a chunk whose size line holds any other character is refused |
| ChunkedInput.ExtensionRefused | src/httplib/httplib.cc:140-158 | every chunk extension is refused |
| ChunkedInput.NegativeRefused | src/httplib/httplib.cc:150 | a negative size is refused |
| ChunkedInput.DataWithoutCrlf | src/httplib/httplib.cc:162-169 | data of the announced length that is not followed by CRLF is refused |
| ChunkedInput.TrailerInAnyReads | src/httplib/httplib.cc:154-160 | behind the last size line a trailer of any fields is read in any reads: the fields are recorded, the body is complete, what follows is left |
| ChunkedInput.LastLineOpensTrailer | src/httplib/httplib.cc:143-160 | a last chunk with its trailer in one read |
| ChunkedInput.LineCutExactly | src/httplib/httplib.cc:467-468 | a size line is written in full if and only if the size is below 16^13 |
| ChunkedInput.SenderHoldsLittle | src/httplib/httplib.cc:456-481 | less than 4096 octets wait, and a call sends nothing as long as all that waits stays below that |
| ChunkedStream.RecoveredExactly | src/httplib/httplib.cc:140-177 | for every list of chunks whose size lines fit, any following octets and any reads, the body is recovered and what follows is untouched if and only if no chunk is empty and no read stops exactly behind the data of a chunk of two octets or more |
| ChunkedStream.CutAtEmpty | src/httplib/httplib.cc:456-481 | with an empty chunk the body read is that of the chunks before it, under the same condition on the reads, and everything behind it is left unread |
| ChunkedStream.LastChunkLeftBehind | src/httplib/httplib.cc:153-171 | the smallest failing split: the body looks complete, the last chunk is left as the next message |
| ChunkedProof.Call | src/httplib/httplib.cc:140-177 | what one call does from every position of a coded body with any part of the rest there |
| ChunkedStream.ChunkAdds | src/httplib/httplib.cc:456-481 | buffering never changes the stream: each call adds exactly its chunk |
| ChunkedStream.ResponseText | src/httplib/httplib.cc:456-489 | a whole response goes out as its head and the plain chunked coding |
| ChunkedStream.ResponseRoundTrip | src/httplib/httplib.cc:140-177 | what is sent is recovered, under the exact condition on chunks and reads |
| ChunkedStream.Response.DoSendChunk | src/httplib/httplib.cc:456-481 | the object sends and buffers as specified |
| ChunkedStream.Response.DoSendDone | src/httplib/httplib.cc:483-489 | the object flushes with the last chunk |
| ChunkedStream.MessageObject.ParseBodyByChunked | src/httplib/httplib.cc:140-177 | the loop over the buffer gives the specified code, message and rest |
| ByteRange.RangesResolved | src/httplib/httplib.cc:1040-1100 | for every list of requests, with any white space and leading zeros, and every file size above 0: each range is exactly the bytes its request selects, in order, or the answer is 416 if some request cannot be satisfied or has a number of 2^63 or more |
| ByteRange.SpecResolved | src/httplib/httplib.cc:1048-1100 | one request of any of the three forms, with any white space and leading zeros, is accepted if and only if it can be satisfied and its numbers are below 2^63, and then selects the right bytes |
| ByteRange.OnlyRequestsAnswered | src/httplib/httplib.cc:1040-1100 | a header is answered with 206 only if it is a list of well-spelled requests all of which can be satisfied; another unit and an empty list get the whole file |
| ByteRange.ContentRangeMeans | src/httplib/httplib.cc:985-998 | a Content-Range reads back as first and last position and size of the file |
| ByteRange.SendRangeResponse | src/httplib/httplib.cc:1129-1164 | one range is sent as it is with its Content-Range, several as multipart/byteranges; the Content-Length is the number of octets sent |
| ByteRange.ParseRanges | src/httplib/httplib.cc:1040-1064 | every range of a 206 answer lies within the file, and there is at least one |
| ByteRange.ParseByteRanges | src/httplib/httplib.cc:1040-1064 | the loop over the list computes the answer: whole file, 416, or 206 with the ranges |
| ByteRange.MultipartLength | src/httplib/httplib.cc:1102-1127 | the advertised Content-Length is the number of octets of the body |
| ByteRange.SendRanges | src/httplib/httplib.cc:1150-1162 | the send loop emits exactly the multipart/byteranges body, part by part with the selected bytes of the file |
| Dns.NameRoundTrip | src/dns/resolver.cc:51-150 | a legal name reads back with its dot from any place in a packet, and exactly its encoding is consumed |
| Dns.NameAccepted | src/dns/resolver.cc:51-67 | a name has a wire form if and only if it is not empty, its labels have 1 to 63 octets and its text at most 253 |
| Dns.NameIsRead | src/dns/resolver.cc:128-150 | on every packet a well-formed name is read in full with the cursor behind its first pointer or zero octet, or the assertion fails if its last piece has no label; reading is endless exactly on endless chains |
| Dns.SameAsSpelledOut | src/dns/resolver.cc:128-150 | a compressed name reads as the same name spelled out without pointers |
| Dns.CompressedRoundTrip | src/dns/resolver.cc:132-137 | labels in front of a pointer to a name written earlier read as both together, the cursor behind the pointer |
| Dns.ErrorReported | src/dns/resolver.cc:127-150 | a name malformed by RFC 1035 gives the empty text if and only if it is malformed also with lengths up to 191 and no label comes before a pointer that is followed |
| Dns.ReservedLengthRead | src/dns/resolver.cc:139-147 | the witnesses: every label of 64 to 191 octets is malformed by RFC 1035 and read as a name |
| Dns.PriorEnds | src/dns/resolver.cc:89-137 | a name whose pointers go to prior positions is read to its end |
| Dns.EndsWithinPacket | src/dns/resolver.cc:128-137 | reading that ends at all ends within as many jumps as the packet has octets |
| Dns.EchoMatches | src/dns/resolver.cc:656-660 | the name in a reply matches the name asked for if and only if that has no trailing dot |
| Dns.OnlyEchoMatches | src/dns/resolver.cc:656-660 | on every packet a name in a reply matches if and only if, spelled out, it is the one asked for, octet by octet |
| Dns.ToDnsName | src/dns/resolver.cc:51-67 | the loop over the labels computes the wire form, or nothing |
| Dns.ParseDnsName | src/dns/resolver.cc:128-150 | the loop and its recursion do what the specification of reading says |
| Smtp.SessionFollowsScript | src/smtplib/smtplib.cc:127-287 | for every reply stream in any reads: the commands are a prefix of the script, AUTH only if a line of the replies begins with 250-AUTH, at most one result, success only after the whole script and a positive reply to each command |
| Smtp.LineKeepsInv | src/smtplib/smtplib.cc:209-287 | every reply line keeps the session on its script or ends it |
| Smtp.SplitIndependent | src/smtplib/smtplib.cc:209-287 | how the replies are cut into reads makes no difference |
| Smtp.WillingServer | src/smtplib/smtplib.cc:209-280 | a server that says yes to everything, with any number of EHLO lines, with or without AUTH, its replies cut into any reads, gets the whole script with the logins it asked for and one RCPT per receiver in order, and the caller a success |
| SmtpOutcome.ResultExactly | src/smtplib/smtplib.cc:209-287 | for every reply stream in any reads: the caller is told of a failure if and only if a whole line is reached that the last command does not wait for, and of a success if and only if QUIT is answered; the result is given at that line, with no further command sent |
| SmtpOutcome.LineOutcome | src/smtplib/smtplib.cc:215-287 | a line the last command does not wait for fails the session; another one gives a success after QUIT and otherwise exactly one more command, unless it is one of several EHLO lines or an unknown prompt |
| Smtp.BodyArrives | src/smtplib/smtplib.cc:195-200 | the server receives the mail if and only if no line of it starts with a dot |
| Smtp.SendTask.SendRcpt | src/smtplib/smtplib.cc:178-186 | one RCPT for the next receiver, and the state change after the last |
| Smtp.SendTask.Reply | src/smtplib/smtplib.cc:215-280 | the switch does to the object what the specification says |
| Smtp.SendTask.SendMail | src/smtplib/smtplib.cc:209-287 | the loop over the buffer does to the object what the specification says, leaving the unread rest |

## Left out

- Sockets, files, signals, epoll, kqueue, OpenSSL, the logger and the samples: system calls, foreign code or plumbing.
- The multipart parser nodes are values, not heap objects that own their children; update in place of a node tree is not captured. Its header loop and the writer are methods with loops.
- The event loop and the thread pool are transition systems, not objects, because what matters is every interleaving; the memory order of the atomics and the unlocked read of the pool's state as a data race are not captured.
- The high-water mark, the time-to-live timer and `close_wait` of a connection, and calls from other threads before they are handed to the loop.
- A connection callback is the list of calls it makes; a timer callback may make other calls at each run.
- Timer.TickCatchesUp: for callbacks of due tasks that schedule nothing already due, as otherwise a tick need not end.
- Timer.TimerQueue.AddTimerInLoop: the position in the ordered container is a function, since the source leaves it to the standard library.
- Dispatch.SelectBase.AddFd: for descriptors below FD_SETSIZE, as the descriptor sets demand.
- The WebSocket handshake and the octet order of the two-octet control replies; payload lengths above 2^64 - 15, where the length arithmetic wraps, are modelled but excluded from the round trips.
- Base64 (a parameter), and the header fields of a message above its outermost multipart.
- HTTP requests and responses around the body, conditional headers, the client pool; a chunk whose size line is cut (ChunkedInput.LineCutExactly) is excluded from the round trip, and a trailer is read back on its own, since the sender writes none.
- Dns.ParseDnsName: follows at most `fuel` pointers; Dns.EndsWithinPacket shows what that leaves out, the endless chains.
- DNS records, the cache and retransmission; `to_dns_name` of an empty name, which reads before the start of the text.
- SMTP with an empty list of receivers, which reads past the end of the list; address lookup and connection attempts.
- WebSocketCodec.SplitIndependent: a session that was given up ignores further reads by a guard of the model; in the source this rests on the connection being closed, and one with octets queued is only Closing.
- Smtp.SplitIndependent: a session that has its result ignores further reads by a guard of the model; in the source this rests on the task being destroyed with its client.
- sha1, base64, URI escaping, dates and entity tags.
