# pisrv: ring buffer, command server, node table and dispatcher

pisrv is a C server built around one `poll` loop. Each connection, timer and protocol is a device with a state
table; the loop picks an active device, fetches one event from it, looks up a row of its table and runs the row's
routine. This project models four parts of it that carry state, and proves what they guarantee over all inputs and
all runs.

| file | what it models |
|---|---|
| `Ring.dfy` | the ring buffer of rnglib as a class over an array, refining a bounded FIFO |
| `RingShared.dfy` | one reader and one writer of that ring, interleaved at every shared access |
| `Framing.dfy` | how a byte stream is cut into command lines |
| `StateTable.dfy` | transition tables with wildcard rows and their lookup |
| `CmdServer.dfy`, `CmdServerRuns.dfy` | a command-server connection as a machine over dispatched events, and its runs |
| `CmdReplies.dfy` | what a connection is told: answers to commands, and the error message of the main loop |
| `CmdServerWaits.dfy` | how long the queued lines of a connection wait for the dispatcher |
| `CmdParse.dfy` | the in-place tokenizer, the pointers it stores, and the command lookup |
| `CmdLines.dfy` | command lines put together from words, gaps and numbers, and what the parser makes of them |
| `CmdDevice.dfy` | the device of a connection and the loop's pass over it, refining that machine |
| `Queue.dfy` | the intrusive circular list, and the event queue on it |
| `NodeTable.dfy` | the keepalive protocol as a function of its history |
| `NodeHistory.dfy` | the list, the counters and the change flag of that protocol told from the history alone |
| `HelloProtocol.dfy` | the keepalive protocol on the linked list, refining that function |
| `RoundRobin.dfy`, `PollTable.dfy` | the poll table and the cyclic scan for an active device |
| `Turns.dfy` | how many waits it takes until a device has had a number of turns |
| `PollRuns.dfy` | where descriptors stand in the table, and the devices' index fields over whole runs |
| `MainLoop.dfy` | which device records the loop touches, and whether they are still linked |
| `MainLoopLists.dfy` | how the devices of `MainLoop` stand for the linked list and the poll table |
| `Common.dfy` | bytes, options and a minimum |

The layers rest on each other: `CmdDevice` runs on the `Ring` class, on `Framing` and on `CmdParse`;
`HelloProtocol` runs on `Queue`; `PollTable` uses the scan of `RoundRobin` and refines the rebuild of `PollRuns`;
`CmdServerWaits` puts `CmdServerRuns` behind the dispatcher by way of `Turns`.

## What is shown

- **The lock-free claim of the ring holds** under sequential consistency with one reader and one writer. Every
  interleaving delivers a prefix of what was published, no cell is overwritten before its byte is released although
  both sides work on offsets that are out of date, every run is a history of a bounded FIFO used one call at a time,
  and neither side ever waits for the other.
- **A live command-server connection loses no wake-up and strands no complete line**, and one chunk of input runs to
  completion: exactly the lines that framing finds are executed, in order, up to the first one with more than 10
  arguments.
- **Such a line is stored over the ring pointer.** `argPtrs` has 10 cells, nothing checks the number of arguments
  (cli.c:175), and `rngId` is the next field (srvr.h:162-163). Every store stays inside, and the ring pointer survives,
  exactly when the line has at most 10 arguments (`SplitArgs`). The machine ends such a run as overrun and does not
  follow it any further; `TooManyWordsAreLost` gives the inputs, from a fresh connection on.
- **An idle connection can be brought to execute another line exactly when** it is in `stateCmdWait`, its ring has
  room, and what the ring holds has at most 10 arguments (`CanStillExecuteExactlyWhen`). So there are three ways to go
  deaf: `stateCmdExecPlus` with bytes left over, where the next complete line, or the 5 second timer, meets the
  wildcard row and closes the connection (`SplitCommandIsLost`); a ring that is full without a CR, which clean-up does
  not flush (`FullRingIsStuck`); and a line that will overrun.
- **Framing does not depend on how the stream is chunked exactly when no CR is parted from the byte behind it**
  (`ChunkIndependence`). A parted LF ends up at the head of the next line, and the parser drops the token that starts
  with it, which is the name of the next command: a command without arguments then fails (`CommandBehindLF`), and any
  other line is taken for what follows its name (`NameBehindLF`; `PartedLineFeedFailsCommand` for a whole session).
- **What the peer is told is the answers to its lines, and one FAIL for every chunk that leaves bytes over**
  (`ChunkTranscript`): a routine that finds no line end returns an error, and the main loop reports that to the peer
  (srvr.c:141-146). So bytes without a CR are answered FAIL before any command was sent (`StartOfLineFails`), and a
  command with a part of the next one behind it gets its OK and then a FAIL (`LineAndMoreFails`). All of it is sent
  exactly when the log level, which any connection can set, is at most 5 whenever there is something to say
  (`SentExactlyWhen`, `SteadyLevelDecides`, `OneLineSent`): an accepted `setloglvl 6` silences its own answer and everything after it
  (`SetLogLvlSilences`).
- **A line is taken apart into exactly the words it was made of**, at blanks and carriage returns only
  (`TokensOfJoined`), and is answered OK exactly when its first word starts with a name and as many words follow as
  that command takes (`OkExactlyWhen`), so `helpme` is OK and `help me` is not. A number that is written is the number
  that is read, with its sign, behind any white space (`AtoiOfDecimal`), and so the level that is set (`LevelIsNumber`).
- **The timer is armed with 5 seconds exactly while a line is at hand or a rest waits for its end in
  `stateCmdExecPlus`**, and after input that completed no line until it has fired once (`TimerExactlyWhen`).
- **A peer's byte stream is executed as a whole exactly when** no line is completed behind a chunk that both completed
  a line and started another (`StreamExecutedExactlyWhen`), for chunks that fit, part no CR from its follower and
  complete no line with too many arguments.
- **Queued lines are executed in time**: a line takes two turns, and so at most 64 waits, whatever other devices do
  (`LinesAreExecutedInTime`).
- **The node table is a function of the history of hellos, ticks and closed sockets**: who is listed, with which
  counts, in which order (`ListIsFunctionOfHistory`), what the three node counters say (`CountersTell`) and whether a
  rebuild of the poll table is called for (`ChangedExactlyWhen`). The walk that expires nodes is safe although it
  unlinks nodes while it walks, and the linked list keeps to all of it over every history (`HandleAll`).
- **An index field is sound after a rebuild exactly when** its descriptor is open and has fewer than 32 open ones
  before it, or it was unset before (`PollRuns.SoundExactlyWhen`). As long as no descriptor is opened or closed while
  its device is linked, every index is sound in every run, beyond 32 descriptors too (`FixedRunsStaySound`). A timer
  that is created again later (utils.c:192-198, after utils.c:221-223) makes an index behind it stale
  (`StaleIndexRun`), and so does closing a descriptor (`ClosingLeavesStale`).
- **With sound indexes a device is active exactly when one of its own entries has something to wake it for**
  (`ActiveExactlyWhen`): input on any descriptor of most devices, and anything at all on the device descriptor. After a
  rebuild a device is picked exactly when one of the first 32 open descriptors does (`PollAfterRebuild`).
- **The scan serves a device whose test holds every time within 32 calls**, and that bound is reached.
- **The main loop never touches a device after it was unlinked**, all touches of a pass being accounted for
  (`PassTouches`). A device that ends or expires has no slot after the next rebuild (`ShutDownIsGone`,
  `ExpiredAreGone`), and a connection that is accepted has one exactly when fewer than 32 descriptors come before it
  (`AcceptedIsPolledExactlyWhen`).
- **A new client is polled after the next rebuild exactly when** the change flag is set, by itself or by anything
  else, and it has fewer than 32 descriptors before it (`ClientPolledExactlyWhen`). A client whose `connect` fails is
  linked and counted but does not set the flag (`RefusedClientIsNotPolled`); one without a socket does.

Three places where code and comments part, and the model follows the code: `setDevTimer` reports the value it has just
set as the remaining time (utils.c:229-231), so the main loop always arms the row's own value; `tcpCmdInProgress` is
commented as never called (tcpCmdSrv.c:241), but `stateCmdExecPlus` with an empty queue does call it; and the state
table's last row is written for `evtSocketShutdown` (tcpCmdSrv.c:171-181), while the lookup takes it for every event
(stateMachine.c:52-65).

## Model

| member | source | states |
|---|---|---|
| RingBuffer.Ring.constructor | rnglib.c:60-88 | a new ring is empty and has room for exactly the bytes asked for; one more cell is allocated |
| RingBuffer.Ring.Flush | rnglib.c:117-124 | afterwards the ring is empty with its full capacity |
| RingBuffer.Ring.BufGet | rnglib.c:138-182 | removes and returns exactly the first min(n, count) bytes in both branches; the rest of the caller's buffer is untouched, and the cells freed join the far end of the free ones |
| RingBuffer.Ring.GetUpToEnd | rnglib.c:158-180 | the same for the branch that wraps |
| RingBuffer.Ring.BufPut | rnglib.c:202-255 | appends exactly the first min(n, free) bytes in all three branches and uses up that many free cells |
| RingBuffer.Ring.PutUpToEnd | rnglib.c:232-253 | the same for the branch that fills to the end and may wrap |
| RingBuffer.Ring.IsEmpty | rnglib.c:266-272 | true exactly when no byte is held |
| RingBuffer.Ring.IsFull | rnglib.c:283-291 | true exactly when no cell is free |
| RingBuffer.Ring.FreeBytes | rnglib.c:302-313 | the number of free cells, which with the count makes the size less one |
| RingBuffer.Ring.NBytes | rnglib.c:324-335 | the number of bytes held |
| RingBuffer.Ring.PutAhead | rnglib.c:356-369 | changes one free cell at the given offset and neither contents nor pointers |
| RingBuffer.Ring.MoveAhead | rnglib.c:381-393 | turns the first n free cells into contents |
| RingBuffer.PutByLookAhead | rnglib.c:337-393 | bytes written ahead in any order, each offset at least once, then moved ahead, give the contents and pointers `BufPut` gives |
| RingBuffer.CoveredAhead | rnglib.c:356-369 | covering all offsets of the data leaves exactly the data in the free cells, whatever the order |
| RingBuffer.Ring.ElemGet | rnglib.h:76-87 | equals `BufGet` of one byte |
| RingBuffer.Ring.ElemPut | rnglib.h:101-126 | equals `BufPut` of one byte |
| RingBuffer.Ring.Search | rnglib.c:395-432 | one plus the index of the first occurrence in the contents, for every wrap position; -1 exactly when there is none |
| RingIndex.Appended | rnglib.c:202-255 | storing into the free cells and moving the write pointer appends, wherever the wrap falls |
| RingIndex.Removed | rnglib.c:138-182 | moving the read pointer removes the oldest bytes and frees their cells last |
| RingShared.StepKeepsInv | rnglib.c:138-255 | every single shared access of either call keeps the invariant that ties both calls' plans, made on stale offsets, to what is really free and held |
| RingShared.RunKeepsInv | rnglib.c:8-13 | so does every interleaving |
| RingShared.DeliveredIsPrefixOfPublished | rnglib.c:8-13 | after any interleaving the bytes copied out are a prefix of the bytes published, and what is owed lies in order between the pointers |
| RingShared.WriterAvoidsHeldCells | rnglib.c:202-255 | the writer never stores into a held cell, nor into the cell the reader is about to read |
| RingShared.WriterOpTakesEffect | rnglib.c:202-255 | a put publishes, in one step and only there, the first min(n, free at its snapshot) bytes of its data |
| RingShared.ReaderOpTakesEffect | rnglib.c:138-182 | a get releases, in one step and only there, the first min(n, held at its snapshot) bytes it copied |
| RingShared.RunsAreLinearizable | rnglib.c:8-13 | the operations of every run, in the order they became visible, are a sequential history of a bounded FIFO that ends with the ring's contents |
| RingShared.PutIsWaitFree | rnglib.c:202-255 | a put finishes in a bounded number of its own steps, and the other side's steps do not disturb it |
| RingShared.GetIsWaitFree | rnglib.c:138-182 | the same for a get |
| RingShared.PutRunsToEnd | rnglib.c:202-255 | a put in progress, left alone, ends and publishes what it planned |
| RingShared.SoloPutMatchesBufPut | rnglib.c:202-255 | a put that is not interrupted does what `BufPut` promises |
| RingShared.GetRunsToEnd | rnglib.c:138-182 | a get in progress, left alone, ends and releases what it wanted |
| RingShared.SoloGetMatchesBufGet | rnglib.c:138-182 | a get that is not interrupted delivers and removes what `BufGet` promises |
| Framing.RestHasNoCR | cli.c:353-408 | framing leaves no complete line over |
| Framing.ResumedFraming | cli.c:368-405 | when every line end in a has its follower, framing a + b equals framing a and then the rest with b |
| Framing.ChunkIndependence | cli.c:368-405 | that holds for all b if and only if every line end in a has its follower |
| Framing.PartedFollower | cli.c:374 | what happens otherwise: when the two come together the first byte of b is swallowed and changes nothing |
| Framing.ChunkingDoesNotMatter | cli.c:368-405 | any number of chunks that part no CR from its follower gives the lines of the whole stream |
| StateTable.GetTransRtn | stateMachine.c:43-67 | finds the first row that names the state and the event or has a wildcard in either column, or none exactly when there is no such row |
| CmdServer.TableLookup | tcpCmdSrv.c:36-186 | for every state and event the search gives the row named, and the last row for every pair without one |
| CmdServer.StepIsOutcome | srvr.c:76-175 | one pass of the loop does, state by state and event by event, what the outcome function says; a line with too many arguments ends the run as overrun |
| CmdServer.TimeLeftIsForgotten | utils.c:229-231 | what was left on the timer never matters to a transition: a device that lives on has the row's own value armed |
| CmdServer.StepKeepsInv | srvr.c:51-175 | every pass keeps, for a live device: not overrun, at most one queued event, counter equal to queue length, no CR in the ring while the queue is empty, and the shape each state requires |
| CmdServerRuns.NothingIsStranded | tcpCmdSrv.c:208-335 | in every reachable live configuration, which is one that no line has overrun, at most one event is queued, the counter is positive exactly when one is, and no complete line is in the ring when none is |
| CmdServerRuns.ReachableDispatch | tcpCmdSrv.c:136-181 | socket and timer events are dispatched only with an empty queue in the waiting or the plus state; exactly which events meet the wildcard row by accident |
| CmdServerRuns.TimerExactlyWhen | tcpCmdSrv.c:36-186 | in every reachable live configuration the timer holds 5 while a line is assembled and while a rest waits in the plus state, and 0 while a command runs; in the waiting state it holds 5 only after input without a line end, with bytes in the ring, and is disarmed when it fires, which changes nothing else |
| CmdServerRuns.EndsExactlyWhen | tcpCmdSrv.c:171-206 | a pass closes the connection if and only if the peer is gone, or the plus state gets a line or its timer; it is overrun if and only if the line to be executed has too many arguments |
| CmdServerRuns.OneLine | srvr.c:109-173 | two passes execute the line at hand and assemble the next one or stop, unless the line overruns |
| CmdServerRuns.QueuedLinesRun | cli.c:340-408 | once a line is complete, all complete lines are executed in order whatever the socket and the timer report, up to the first one with too many arguments |
| CmdServerRuns.RunToCompletion | srvr.c:51-175 | a chunk makes the loop execute exactly the lines of framing the ring and what fits of the chunk, in twice as many passes; it ends waiting, or in the plus state with a rest without CR, or overrun at the first line with too many arguments |
| CmdServerRuns.ChunkExecutedExactlyWhen | tcpCmdSrv.c:149-181 | for any idle connection: a chunk's lines are executed if and only if it completes none, or the connection is in the waiting state and none of them has too many arguments; in the plus state it is closed instead |
| CmdServerRuns.CanStillExecuteExactlyWhen | cli.c:332-339 | some future input makes an idle connection execute a line if and only if it waits, its ring has room and does not hold too many arguments |
| CmdServerRuns.RunStaysStuck | cli.c:332-339 | nothing that arrives changes that once it is lost |
| CmdServerRuns.FullRingIsStuck | cli.c:332-339 | every 132 bytes without a CR, sent to a fresh connection, get it there |
| CmdServerRuns.TooManyWordsAreLost | cli.c:175 | for any number of words above 10, sent to a fresh connection in front of another command: the run ends overrun and executes nothing, although framing finds both lines |
| CmdServerRuns.PacedSessionFrames | cli.c:353-408 | a session of paced chunks, with waits and timer expiries in between, executes what framing chunk by chunk gives |
| CmdServerRuns.PacedSessionExecutesStream | cli.c:353-408 | a peer that paces itself has exactly the lines of its byte stream executed, however it is cut and whatever the timer does in between |
| CmdServerRuns.StreamExecutedExactlyWhen | cli.c:340-408 | for every session of bearable chunks: the lines of the whole stream are executed if and only if none is completed behind a chunk that both completed a line and started another |
| CmdServerRuns.SplitCommandIsLost | tcpCmdSrv.c:149-181 | for every two commands sent so that the second is cut: at most the first is executed, and the connection is closed or overrun |
| CmdServerRuns.PartedLineFeed | cli.c:374 | for every two commands cut between the CR and the LF of the first: both are executed, the second with the LF in front of it |
| CmdParse.CommandIsUnique | cli.c:28-40 | no two command names are prefixes of the same word |
| CmdParse.StrTok | cli.c:162-168 | finds the next maximal run without delimiters, cuts it off in place, and leaves earlier tokens alone |
| CmdParse.ArgsOfMore | cli.c:162-177 | bytes added to a line never take arguments away |
| CmdParse.ArgsBehindLF | cli.c:173-176 | a line feed in front of a line costs it its first argument exactly when that is what the line starts with |
| CmdParse.NameBehindLF | cli.c:173-176 | behind a line feed a command is accepted if and only if what follows its name is a command itself; one without arguments fails |
| CmdParse.CommandBehindLF | cli.c:28-40 | every command without arguments is OK on its own and FAILED behind a line feed |
| CmdParse.SplitArgs | cli.c:162-180 | the pointers lead, in order, to exactly the tokens of the line that do not start with LF; later cells keep their stale values; every store stays inside `argPtrs`, and the ring pointer behind it survives, if and only if there are at most 10 |
| CmdParse.ParseCmd | cli.c:150-212 | for every line: accepts if and only if the first kept token extends a command's name and the number of others is what that command takes, whatever was in the pointers before |
| CmdLines.TokensOfJoined | cli.c:149-168 | every line put together from words without blank, CR or NUL, with gaps of blanks and CRs, is taken apart into exactly those words |
| CmdLines.KeptExactlyWhen | cli.c:173-176 | a word is no argument if and only if it starts with a line feed, wherever it stands |
| CmdLines.ArgsOfJoined | cli.c:162-180 | so the arguments of a line are its words, when none starts with a line feed |
| CmdLines.FewArgsExactlyWhen | cli.c:162-180 | there is a pointer for every argument if and only if there are at most 10 words |
| CmdLines.OkExactlyWhen | cli.c:182-209 | for all words: OK if and only if the first starts with one of the nine names and exactly as many follow as that command takes, the numbers given name by name |
| CmdLines.NameWithSuffix | cli.c:28-40 | a name with anything behind it is taken for that command, and OK if and only if exactly its number of words follows |
| CmdLines.AtoiOfDecimal | utils.c:21-24 | for every number: what is read is what was written, with its sign, behind any white space and in front of anything but a digit |
| CmdLines.LevelOfJoined | cli.c:250-252 | exactly the lines of two words that start with `setloglvl` set the level, to what `atoi` makes of the second |
| CmdLines.LevelIsNumber | cli.c:250-252 | every number, with or without a sign, can be set |
| CmdParse.ScanNumber | utils.c:21-24 | the number at the start of an argument: white space, sign, digits |
| CmdDevice.Device.constructor | device.c:55-110 | a new device refines the initial configuration; nothing has been sent to its peer |
| CmdDevice.Device.LogMsg | utils.c:28-60 | a message is sent if and only if the log level is at most 5 |
| CmdDevice.Device.EvtAdd | utils.c:243-274 | queues last and counts one more |
| CmdDevice.Device.TakeLine | cli.c:374-375 | copies the line ended by NUL into the 132 byte buffer, which never overflows, and takes it and the follower from the ring |
| CmdDevice.Device.AssembleCmdLine | cli.c:353-408 | refines assembly: error without a CR, otherwise a line and the event that fits what is left |
| CmdDevice.Device.PutReceived | tcpCmdSrv.c:213-232 | appends what fits of the received bytes |
| CmdDevice.Device.TcpCmdSrvInput | tcpCmdSrv.c:208-239 | refines input, end of file included |
| CmdDevice.Device.RunCmd | cli.c:214-252 | accepts exactly the lines some command accepts, and sets the log level exactly by an accepted `setloglvl`, to the number it gives |
| CmdDevice.Device.CliExeCmd | cli.c:214-330 | executes the line assembled last, answers OK exactly when it is accepted and FAILED otherwise, at the log level the line leaves behind, queues the finished event and never fails, unless the line overruns the ring pointer |
| CmdDevice.Device.TcpCmdSrvShutdown | tcpCmdSrv.c:188-206 | ends the device and reports the shutdown |
| CmdDevice.Device.GetEvtType | tcpCmdSrv.c:283-335 | picks queue before socket before timer, dequeues one event and clears the whole counter |
| CmdDevice.Device.EndTransition | srvr.c:112-173 | the next state on success; on failure FAIL to the peer and the error state; no change where the row says so; the timer goes on with what is reported as remaining only if that is not 0 and the state does not change |
| CmdDevice.Device.RunTransition | srvr.c:97-174 | refines the row: timer cancelled, routine, state or error state; nothing after a shutdown, and otherwise the row's own timer value is always armed; sends what the row says, if it is to be heard |
| CmdDevice.Device.MainLoopPass | srvr.c:76-175 | refines a step of the machine, keeps the assembled line in the buffer until it is executed, and sends the answer to an executed line, or FAIL on the error branch, if it is to be heard |
| CmdDevice.Device.MainLoop | srvr.c:51-190 | the loop, for as long as the device lives and while others set the log level, makes exactly the runs of the machine, overruns included, and sends exactly what is to be heard of their transcripts |
| CmdReplies.FailExactlyWhen | srvr.c:141-160 | a pass says FAIL if and only if input completes no line, or what is left in the ring after a command is no line |
| CmdReplies.AnsweredExactlyWhen | cli.c:308-324 | a pass adds to the lines executed exactly the line at hand, when it executes one |
| CmdReplies.TranscriptAnswersLines | cli.c:308-324 | over every run the transcript without its FAILs is the answers to the lines executed, in order |
| CmdReplies.ChunkTranscript | srvr.c:109-160 | until a connection waits again a chunk gets the answers to its lines, up to an overrun, and then one FAIL if and only if bytes are left over |
| CmdReplies.StartOfLineFails | srvr.c:141-146 | for all bytes without a CR, sent to a fresh connection: one FAIL and nothing else |
| CmdReplies.LineAndMoreFails | cli.c:340-348 | for every chunk of one line and a part of another: one command is executed, and it gets its answer and then a FAIL |
| CmdReplies.PartedLineFeedFailsCommand | cli.c:173-176 | for a whole session: two commands cut between CR and LF get a FAILED for the second, if it has no arguments, where framing promises it the answer it gets on its own |
| CmdReplies.SentExactlyWhen | utils.c:31-58 | a run sends all it says if and only if the log level is at most 5 at every pass that says something, and nothing if and only if at none |
| CmdReplies.SteadyLevelDecides | utils.c:31-58 | over every run in which nobody sets the level: all of the transcript is sent if it is at most 5, and nothing otherwise |
| CmdReplies.OneLineSent | cli.c:308-324 | a chunk that is one line is answered over its three passes if and only if the level it leaves behind is at most 5; unless it sets the level, that is the level somebody set last before its second pass |
| CmdReplies.StaysSilent | utils.c:31-35 | above level 5 nothing is sent until somebody sets the level |
| CmdReplies.SettingLevelSilences | cli.c:250-252 | an accepted command that sets the level above 5 is answered OK, but that is not sent, nor anything after it until the level is set again |
| CmdReplies.SetLogLvlSilences | cli.c:250-252 | for instance `setloglvl` with a digit from 6 on, in a chunk of its own |
| Queue.Que.Insque | utils.c:98-108 | on the sentinel it appends, links agreeing both ways |
| Queue.Que.Remque | utils.c:110-115 | removes exactly that element |
| Queue.Que.GetNext | utils.c:64-86 | the next element, the first one for null, null at the end |
| Queue.Que.QueLen | utils.c:117-129 | the number of elements |
| Queue.EventQueue.EvtAdd | utils.c:243-274 | first in, first out: the event comes last and the counter grows by one |
| Queue.EventQueue.EvtGet | utils.c:276-297 | takes the oldest event and clears the whole counter; does nothing when there is none |
| NodeTable.TickProgress | helloProtocol.c:236-265 | one step of the expiry walk keeps: done in front, untouched behind |
| NodeTable.TickCounts | helloProtocol.c:236-265 | a tick loses exactly the expired clients and no other device |
| NodeTable.TickKeepsWellFormed | helloProtocol.c:248-259 | a tick keeps addresses distinct and ages within the limit, and brings in no address |
| NodeTable.HelloKeepsInv | helloProtocol.c:136-184 | a hello keeps them too, and every other device |
| NodeTable.ClosedKeepsInv | tcpCmdClient.c:100-133 | so does the end of a client |
| NodeTable.RunKeepsInv | helloProtocol.c:37-39 | over every history: distinct addresses, none of them ours, ages in 0..5, nodes added less nodes deleted equals clients listed, other devices unchanged and in order |
| NodeTable.TableIsFunctionOfHistory | helloProtocol.c:236-265 | an address is listed if and only if its latest hello is later than its latest end and at most 5 ticks have followed; its count is the number of those ticks |
| NodeTable.OwnAddressIsNeverListed | helloProtocol.c:141-145 | our own address is never listed |
| NodeHistory.ListIsFunctionOfHistory | helloProtocol.c:95-267 | the whole list from the history: first the other devices, in order, and then a client for each address that is alive, in the order of joining, each with its hellos since it joined and its ticks since the latest |
| NodeHistory.CountersTell | helloProtocol.c:95-267 | added is the number of hellos from others who were not alive, deleted from error that of ends of clients of those who were, deleted from timer that of addresses that a tick ends |
| NodeHistory.ChangedExactlyWhen | helloProtocol.c:165-182 | the change flag is set if and only if it was, or somebody not alive said hello and was connected to, or somebody alive ended or timed out |
| HelloProtocol.HelloProtocol.CreateDevStruct | device.c:45-112 | a new device is linked last |
| HelloProtocol.HelloProtocol.TcpCmdClientInit | tcpCmdClient.c:174-247 | links and counts before connecting, and stays linked when that fails |
| HelloProtocol.HelloProtocol.GetNextNode | device.c:307-326 | the next device of the type, skipping others |
| HelloProtocol.HelloProtocol.TcpCmdClientShutdown | tcpCmdClient.c:100-133 | unlinks exactly that client, counts it by its cause and sets the change flag |
| HelloProtocol.HelloProtocol.FindClient | helloProtocol.c:147-163 | the first client of an address, or null exactly when there is none |
| HelloProtocol.HelloProtocol.ReceiveHello | helloProtocol.c:136-184 | refines a hello event |
| HelloProtocol.HelloProtocol.HelloProtocolInput | helloProtocol.c:95-187 | refines the run of all packets read |
| HelloProtocol.HelloProtocol.AgeClient | helloProtocol.c:248-259 | one client is aged, or unlinked when too old |
| HelloProtocol.HelloProtocol.TickClient | helloProtocol.c:236-265 | the node fetched before the body is still linked and the right one after it |
| HelloProtocol.HelloProtocol.ExpireNodes | helloProtocol.c:236-265 | every client is visited exactly once, the walk ends, and the list is the old one filtered and aged, in order |
| HelloProtocol.HelloProtocol.HelloProtocolTimer | helloProtocol.c:191-267 | refines a tick |
| HelloProtocol.HelloProtocol.ClientSocketShutdown | tcpCmdClient.c:100-133 | refines the end of a client |
| HelloProtocol.HelloProtocol.HandleAll | helloProtocol.c:95-267 | any history of packets, ticks and ended sockets on the linked list refines its run; from a list without clients the list, the three counters and the change flag end up as the history tells |
| RoundRobin.ScanFindsActive | device.c:204-261 | a scan finds nothing if and only if nothing is active |
| RoundRobin.ScanComesNearer | device.c:204-261 | an active slot is served or comes strictly nearer |
| RoundRobin.BoundedWaiting | device.c:168-264 | a slot that stays active is served within its distance plus one calls, whatever the others do |
| RoundRobin.BoundIsTight | device.c:168-264 | and not earlier when all are active |
| Turns.GetsTurns | device.c:168-264 | any device that is busy for k turns, and whose slot says so, has had them within 32 k waits, whatever other devices do |
| CmdServerWaits.LinesAreExecutedInTime | srvr.c:51-175 | a connection with n lines to execute, none with too many arguments, has executed them and waits again within 2 n times 32 waits |
| PollTable.PollDev.constructor | device.c:69-87 | all descriptors but the event one start invalid, all indexes unset |
| PollTable.Table.AddToFds | device.c:139-156 | enters an open descriptor while there is room and points its index at it, else changes nothing |
| PollTable.Table.DevGenericSetPolled | device.c:387-408 | enters a device's open descriptors in order: event, timer, table timer, device |
| PollTable.Table.InitPollFds | device.c:114-137 | after a rebuild the table is the first 32 of the list-order concatenation of all open descriptors, all indexes tell, and devices whose indexes were in range can be asked |
| PollTable.EntryIsAt | device.c:139-156 | an open descriptor's entry stands behind those of all open descriptors before it |
| PollTable.IndexAfterRebuild | device.c:139-156 | a rebuild gives an open descriptor with fewer than 32 before it that number as index, and leaves every other index as it was |
| PollTable.PlacesAreDistinct | device.c:139-156 | no two open descriptors have the same place, and so the same index |
| PollTable.EverySlotIsIndexed | device.c:139-156 | every slot in use, even beyond capacity, is the place and the index of an open descriptor |
| PollTable.RebuildRefines | device.c:114-156 | the rebuild of the class is the one that runs are made of |
| PollTable.SoundLeadsToOwnEntry | device.c:158-163 | a sound index is unset or leads to the entry of its own descriptor |
| PollRuns.SoundExactlyWhen | device.c:139-156 | after a rebuild an index is sound if and only if its descriptor is open with fewer than 32 open ones before it, or it was unset before |
| PollRuns.FixedRunsStaySound | device.c:114-156 | over every run of appending, unlinking and rebuilding with fixed descriptors every index is sound after every rebuild, beyond capacity too |
| PollRuns.OpeningLeavesStale | utils.c:192-204 | for every list: opening a descriptor before the one in the last slot leaves that one with a stale index |
| PollRuns.ClosingLeavesStale | utils.c:221-223 | for every list: so does closing a descriptor that has a slot |
| PollRuns.StaleIndexRun | utils.c:192-204 | a run that does it: eleven devices, the first of which gets its timer later |
| PollTable.IdxsStayInRange | device.c:158-163 | indexes that were in range stay so |
| PollTable.ActiveByIndex | device.c:410-451 | whatever its indexes lead to, a device is active if and only if the report at one of them would wake it, descriptor by descriptor |
| PollTable.ActiveExactlyWhen | device.c:410-451 | with indexes that lead to their own entries: a device is active if and only if one of its entries reports input, or anything at all on the device descriptor; with the connection server's test, input on any but the table timer |
| PollTable.LeadsExactlyWhen | device.c:114-156 | after a rebuild the indexes of a device lead there if and only if each descriptor is open with fewer than 32 before it, or had no index |
| PollTable.Table.ScanRound | device.c:204-261 | refines the scan, errors noted on the way included |
| PollTable.Table.GetActiveDev | device.c:168-264 | nothing on a bad status; otherwise an active device in round-robin order, null if and only if no registered device is active, and with sound indexes if and only if no entry reports anything that wakes its device; the change flag is set if and only if it was or a slot looked at reports an error, a hang-up or an invalid descriptor |
| PollTable.Table.PollAfterRebuild | device.c:114-264 | a rebuild and a wait: with sound indexes a device is picked if and only if one of the first 32 open descriptors of the list reports what wakes its device, and then one of those |
| PollTable.Table.PollRepeatedly | device.c:168-264 | bounded waiting on the class: over consecutive waits, whatever `poll` reports, a registered device whose test holds every time is served within 32, and with sound indexes so is one that has an entry to wake it every time |
| MainLoop.TransitionKeepsInv | srvr.c:109-140 | a transition keeps: a table that names an unlinked device is flagged; the dispatched device is unlinked if and only if a shutdown is reported |
| MainLoop.PassIsSafe | srvr.c:54-173 | one pass keeps that and touches linked devices only |
| MainLoop.NoUseAfterUnlink | srvr.c:51-173 | over every run, scans that meet errors included, the scan, the fetch and the writes after a transition touch linked devices only |
| MainLoopLists.RemqueIsWithout | utils.c:110-115 | what unlinking makes of the linked list is what `MainLoop` makes of its devices |
| MainLoopLists.LinkedIsOnList | utils.c:98-115 | a device is linked in `MainLoop` if and only if its element is on the list |
| MainLoopLists.RebuildsAgree | device.c:114-137 | after a rebuild the slots of `MainLoop` are the owners of the entries of the poll table, slot by slot, and all of them are on the list |
| MainLoop.JoiningFlags | helloProtocol.c:165-182 | new clients set the change flag if and only if one of them does not fail to connect |
| MainLoop.ClientPolledExactlyWhen | tcpCmdClient.c:174-247 | for every list and every batch of hellos: a new client is in the table after the next rebuild if and only if the flag is set and fewer than 32 descriptors come before it |
| MainLoop.JoinedIsPolledExactlyWhen | helloProtocol.c:165-182 | the same for a pass of the loop, in numbers: three descriptors for each client before it, two for one without a socket |
| MainLoop.AcceptedIsPolledExactlyWhen | tcpConnSrv.c:63-108 | a connection that is accepted is linked last, and is in the table after the next rebuild if and only if fewer than 32 descriptors come before it |
| MainLoop.ExpiredAreGone | helloProtocol.c:236-265 | a tick unlinks exactly the expired clients, flags if and only if there are any or an error was seen, and none of them has a slot after the next rebuild |
| MainLoop.ShutDownIsGone | srvr.c:109-140 | a connection that ends is unlinked alone, and has no slot after the next rebuild |
| MainLoop.ErrorRebuilds | device.c:212-228 | after a pass that saw an error the next one rebuilds the table, whatever else happened |
| MainLoop.PassTouches | srvr.c:54-173 | a pass touches the owner of every slot, the device it dispatches, and that one again unless it has shut down |
| MainLoop.TouchesOfPass | srvr.c:51-173 | what a run touches includes what each of its passes touches |
| MainLoop.RefusedClientIsNotPolled | tcpCmdClient.c:225-233 | a single client whose connection is refused is linked without being in the table or flagged for it |

## Left out

- Sockets, `poll`, `recv`, `connect`, `timerfd` and `eventfd` themselves: what they report is a parameter of the steps; only the event counter and the armed timer value are kept.
- Hardware memory ordering: `RingShared` assumes sequential consistency, one byte per step of `memcpy`, and each pointer write as one step.
- `rngDelete`, allocation failure and the freeing of memory; `rngFlush` concurrent with other calls.
- Machine integers: ring offsets, counters and the event counter are unbounded, so sizes near the limit of `int` are not modelled.
- `cmdRemCommand` (cli.c:43-90) is unfinished and does not compile; a `remCmd` line is parsed and replied to like any other.
- What the commands print, and the first argument that stands in front of OK, FAILED and FAIL; that one is left from an earlier line, or null, on the error branch.
- Log levels beyond the range of `int`, where `atoi` promises nothing.
- What an overrun does after the store over `rngId`: further arguments go to the fields behind it and past the record; the reply to such a line is not modelled either, the run just ends.
- A stale pointer in `argPtrs` whose comparison with a name would run past the buffer counts as no match.
- TcpCmdSrvShutdown: only the end of this device; taking it off the device list and setting the change flag are in `MainLoop.Transition`.
- CreateDevStruct: only the linking; the initial descriptors and indexes are in `PollTable.PollDev.constructor`, the initial state, timer, ring and queue in `CmdDevice.Device.constructor`.
- `CmdDevice.dfy` keeps the event list of a device as a `seq` field; the linked list it stands for is proved first in, first out in `Queue.EventQueue`.
- The intrusive list header is an element with a payload, so the sentinel carries unused data.
- `PollTable.dfy` walks the device list as a `seq`; that walking the linked list enumerates it is proved in `Queue` and `HelloProtocol`.
- `MainLoop.dfy` names devices by numbers that are never reused, so a freed record whose address is used again is not modelled; a scan is taken to look at all slots, which includes those it looks at.
- The hello and ping messages that are sent; a history of the node table has no other devices coming and going.
- `devGenericGetActive` reads `fds[-1]` for a debug message when a device has no socket; that read is not modelled.
- Other device types (tcpConnSrv.c, serialCmdSrv.c, msgApi.c): mostly I/O; accepting a connection is modelled only as linking a device and setting the change flag. The serial device fills `recvBuf` without the ring, so framing does not apply to it.
- helloProtocolx.c and code under `#if 0` are not built.
