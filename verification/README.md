# Clawcage channels, calendar and retention: a verified model

Clawcage runs an AI coding environment in a virtual machine. A host application and a guest agent talk over
vsock channels. This project models the logic around those channels, and the host's calendar and session
retention code, and proves what that logic keeps over all inputs, all interleavings and all runs.

| file | what it models |
|---|---|
| `Search.dfy`, `Streaming.dfy`, `Decimal.dfy`, `Sentinel.dfy` | the scanner that cuts the exec marker out of a chunked terminal stream |
| `Injection.dfy` | the injected shell line, its reading by a POSIX shell, what its `printf` prints, and the report |
| `ExecBridge.dfy`, `ExecRuns.dfy` | the control loop and the bridge loop around the scanner, as interleaved threads; what a run's steps make of an exec |
| `Transport.dfy`, `TerminalMux.dfy`, `OutputQueue.dfy`, `QueueRuns.dfy`, `TerminalPath.dfy`, `InputBatch.dfy` | terminal bytes both ways: exact I/O, framing, demultiplexing, the bounded output queue, the whole way to the frontend, input batching |
| `Download.dfy`, `ControlChannel.dfy`, `GuestMessages.dfy` | one guest file in chunks, the host's reassembly with many transfers in flight, the bytes of their messages, and the frame limit of the channel they share |
| `Boot.dfy`, `SentVariables.dfy` | the boot handshake: what is sent, what is accepted, and the exchange over FIFO channels |
| `GuestConfig.dfy`, `KeyIsolation.dfy` | the boot environment and boot files as collected from the settings, and what of a stored API key goes out with them |
| `Lifecycle.dfy` | the host's VM state machine and message validators |
| `Calendar.dfy`, `IsoTime.dfy` | civil time from a second count, timestamps as text, and the approximate parser behind the daily sync |
| `Retention.dfy`, `SessionRecords.dfy` | the start-up clean-up of sessions, and what it makes of each record and directory |
| `Base64.dfy`, `Utf8Cap.dfy`, `SparseCopy.dfy`, `Debounce.dfy`, `PortMirror.dfy` | icon encoding, field capping, sparse copies, file-event debouncing, port mirroring |
| `Basics.dfy` | bytes, optional values, concatenation |

A loop of the source is a method proved against a specification, an object that is updated in place is a class
whose methods state their new contents, and an exchange between threads or processes is a state machine over
the points at which others can run. Statements over runs quantify over every sequence of enabled steps.

Where the code does not do what it is for, the code is modelled as it is, a lemma gives a case, and another
says exactly when the code does meet the property:

- After an exec injection failed while the bridge held bytes back, output read before the next exec begins is
  passed on in front of them (`ExecBridge.LaterOvertakesHeld`, `FailedInjectionReorders`). One such read keeps
  the byte order exactly if held and new bytes commute (`PassOnConservesIff`), and over all runs, however
  injections fail, the order is kept throughout exactly if no read overtakes held bytes (`ByteOrderIsKeptIff`).
  Markers are cut and answered once each in every run (`EveryResultIsAnsweredOnce`).
- A terminal-input message that ends a batch because it is for another shell is taken off the channel and
  dropped (`InputBatch.SwitchLosesInput`). Going through the queue once tells which shells get their input whole
  (`InputArrivesIff`), and nothing is lost exactly if every switch to another shell comes when the batch before
  it is full (`NothingLostIff`).
- A download of a file that grew after its size was taken can succeed with a part of the file
  (`Download.AnswerIsWholeIff`, `GrownFileIsCut`).
- The guest does not check the size of what it sends, and the host drops the control connection on a frame of more
  than 262,144 bytes. A file's octets from 128 up take two bytes each, so a chunk with too many of them never
  arrives (`ControlChannel.HighOctetsBlockChannel`, `BinaryFileNeverArrives`), nor does a file that has grown too
  much (`GrownFileBlocksChannel`), and every transfer that is not settled by then ends with it
  (`OversizedFrameEndsTransfers`). `WholeFileIff` says exactly which downloads succeed.
- The agent's log preview slices a value at its 40th octet and panics inside a character
  (`Boot.AgentDiesIff`, `AccentAtTheCut`). Setup files are sent uncapped and refused by the guest's caps, the
  first one already after 64 configured files (`FullCapRefusesSetup`, `SetupFileIsRefused`), and a frame too
  large to read ends the handshake early; `HandshakeIsExactIff` has the exact condition.
- Credential isolation covers the variables from the settings only. An API key on the command line goes out as it
  is (`Boot.ApiKeyVariablesAreIsolated`, `RealKeyVariableIsSentIff`), and the state file `/root/.claude.json` is
  written with the last twenty octets of the stored Anthropic key, which is all of a short one
  (`KeyIsolation.WholeKeyIsSent`). `PartOfKeyIsSentIff` says exactly when a message carries which part;
  `KeysReachStateFileOnly` that neither the variables nor any other boot file depends on the keys;
  `GuestLearnsNothingIff` and `GuestLearnsNothingUnderCapsIff` when the guest can tell nothing of them. A key that has an octet inside a character
  twenty from its end makes the host panic instead (`CollectIs`, `AccentedKeyPanics`).
- Timestamps as text are in time order up to the year 9999 and no further (`IsoTime.TextOrderIsTimeOrderIff`).
  The approximate parser is a day short from March to December of leap years, so a sync is then due one second
  after the last; from 2101 on it can run ahead, and the subtraction underflows
  (`IsoTime.ParserErrorIsExact`, `SyncIsDueExactly`, `SyncNeverUnderflowsIff`, `UnderflowFrom2101`).
- The session cap counts terminated records too, so they can crowd out live sessions
  (`Retention.CapLeavesAsManyAsAllowedIff`, `CapExample`). The disk cull counts directories that are about to be
  removed (`NeedlessCullExample`); `CullsNeedlesslyIff` says when it takes sessions that there was room for.
- The orphan search asks for 10,000 records and removes the directories of live sessions that are not among them
  (`Retention.ASurvivorLosesItsDir`; a session cap above 10,000 in the user's settings is reported by the linter
  but used as it is). No possible answer to the query does so exactly if for each survivor with a directory at
  most 10,000 of the remaining records are not older (`EverySurvivorIsSparedIff`). If the query fails, every
  session directory goes (`FailedQueryRemovesEverySession`). With at most 10,000 records the clean-up leaves
  exactly the sessions and directories that it should (`CleanupOfFewRecords`).
- Comments that differ from the code: `TerminalOutputQueue::push` drops the oldest chunk, not the new one;
  `validate_host_msg` lets a file write through while running, not only in the handshake; the chunk size is said
  to leave room for the framing of a frame, which holds for octets below 128 only. The code is followed.

## Model

| member | source | states |
|---|---|---|
| Search.FindSubsequence | crates/clawcage-agent/src/main.rs:585-587 | the answer is the first occurrence, and there is none only if the needle occurs nowhere |
| Search.KeepIsLongest | crates/clawcage-agent/src/main.rs:562-571 | the held-back length is k if and only if the last k bytes are a proper prefix of the marker and no longer suffix is |
| Search.NoneStartsBeforeKeep | crates/clawcage-agent/src/main.rs:562-578 | whatever follows, no occurrence of the prefix starts in the forwarded bytes |
| Search.KeepIsNeeded | crates/clawcage-agent/src/main.rs:562-571 | some continuation turns the held-back bytes into an occurrence, so they have to be held |
| Search.KeepAfterCut | crates/clawcage-agent/src/main.rs:562-571 | holding back from the kept suffix onwards gives the same answer as holding back everything |
| Streaming.CountKept | crates/clawcage-agent/src/main.rs:564-571 | the backwards loop computes the longest such suffix |
| Streaming.ReadMarker | crates/clawcage-agent/src/main.rs:535-553 | the terminator search and payload parse agree with the marker at that position of the whole stream |
| Streaming.FeedExtendsScan | crates/clawcage-agent/src/main.rs:525-583 | one more chunk after a scan of a stream gives the scan of the longer stream |
| Streaming.ChunkInvariance | crates/clawcage-agent/src/main.rs:525-583 | for every stream and every way of splitting it into reads, forwarded bytes, held bytes and result are those of a one-shot search |
| Streaming.ScanConserves | crates/clawcage-agent/src/main.rs:525-583 | forwarded and held bytes are the stream in order, minus exactly one marker whose payload is the reported one |
| Streaming.ForwardIsLongestSafe | crates/clawcage-agent/src/main.rs:543-583 | without a marker, exactly the bytes are forwarded in which no marker can ever start |
| Streaming.FirstMarkerIsCutOut | crates/clawcage-agent/src/main.rs:533-551 | the first prefix, the first terminator after it and a payload that parses make the result |
| Sentinel.Scanner.ScanAndStrip | crates/clawcage-agent/src/main.rs:525-583 | one call returns and leaves in its tail what the whole-stream search of old tail and new data gives |
| Sentinel.Scanner.constructor | crates/clawcage-agent/src/main.rs:641 | the tail starts empty |
| Sentinel.ParseSentinelPayload | crates/clawcage-agent/src/main.rs:589-595 | a parsed pair fits u64 and i32, and the text before and after the first colon parses to it |
| Sentinel.ParsePrintPayload | crates/clawcage-agent/src/main.rs:589-595 | parsing undoes printing for exactly the pairs that fit u64 and i32 |
| Decimal.ParsePrintUnsigned | crates/clawcage-agent/src/main.rs:592 | the printed form of a natural number parses back exactly if it is below the type's limit |
| Decimal.ParsePrintSigned | crates/clawcage-agent/src/main.rs:593 | the same for signed numbers, both bounds included |
| Decimal.PrintIs | crates/clawcage-agent/src/main.rs:1087-1089 | the printed form in octets: digits from 48 up, a minus in front |
| Decimal.ParseWithSign | crates/clawcage-agent/src/main.rs:589-595 | a plus changes nothing, a minus is taken by the signed parser only, and a sign alone is refused |
| Sentinel.PrintedMarkerIsCutOut | crates/clawcage-agent/src/main.rs:525-595 | any well-formed payload between the delimiters is found, reported and cut out, and nothing else is |
| Sentinel.ReportedExactlyWhenOutputHasNoPrefix | crates/clawcage-agent/src/main.rs:525-595 | a command's exit is reported and its output untouched if and only if the output holds no marker prefix |
| Injection.InjectionReadsBack | crates/clawcage-agent/src/main.rs:1086-1090 | for every command text, a POSIX shell (sections 2.2.1 and 2.2.2 of the Shell Command Language) reads the line as bash -c with exactly that text, then printf |
| Injection.InjectionTextIs | crates/clawcage-agent/src/main.rs:1086-1090 | the typed line octet by octet, and what a quote in the command becomes |
| Injection.LexEscaped | crates/clawcage-agent/src/main.rs:1088 | quoting is undone by the shell for every byte string |
| Injection.PrintfPrintsMarker | crates/clawcage-agent/src/main.rs:1087-1089 | printf with the injected format prints the marker of the id and exit status |
| Injection.ShellWritesIff | crates/clawcage-agent/src/main.rs:1086-1090 | what the shell writes for the line is the command's output followed by the marker, and nothing else |
| Injection.ExecIsReportedExactly | crates/clawcage-agent/src/main.rs:1059-1123 | end to end: command to shell to marker to scanner, over every chunking, reports the id and status and passes the output on |
| ExecBridge.ExecConservation | crates/clawcage-agent/src/main.rs:639-725 | over all interleavings: host bytes are the shell's output minus the cut markers, one answer per exec with the cut exit, execs never overlap, nothing is held while idle |
| ExecBridge.StepKeepsInv | crates/clawcage-agent/src/main.rs:687-725 | every step of either loop keeps the byte account, the written frames and the phase of the exec |
| ExecBridge.RunKeepsInv | crates/clawcage-agent/src/main.rs:687-725 | so does every run whose injection failures are harmless |
| ExecBridge.FailedInjectionIsHarmlessIff | crates/clawcage-agent/src/main.rs:1091-1099 | a failed injection leaves the bridge as it is between execs exactly if nothing is held back and no result has been cut out since the exec began |
| ExecBridge.PassOnConservesIff | crates/clawcage-agent/src/main.rs:687-725 | a read that is passed on while no exec is active keeps the byte account exactly if the held bytes followed by the new ones are the new ones followed by the held ones |
| ExecBridge.ByteOrderIsKeptIff | crates/clawcage-agent/src/main.rs:687-725 | over every run, however injections fail: the host's bytes are the shell's in order at every moment if and only if no read overtakes held bytes |
| ExecBridge.EveryResultIsAnsweredOnce | crates/clawcage-agent/src/main.rs:687-725 | over every run, however injections fail: only markers are cut, and the exits in them are answered once each and in order, or still on the way |
| ExecBridge.LaterOvertakesHeld | crates/clawcage-agent/src/main.rs:1091-1099 | whatever bytes are held back entirely when an injection fails, the next ones read reach the host in front of them |
| ExecBridge.FailedInjectionReorders | crates/clawcage-agent/src/main.rs:1091-1099 | such a run from the start, with an escape byte held back |
| ExecRuns.LogFollowsRun | crates/clawcage-agent/src/main.rs:687-725 | over every run the shell output is what the run reads, the execs begun and failed are those of its steps, and a failed injection is logged for the exec being typed |
| ExecRuns.FailureIsAnswered | crates/clawcage-agent/src/main.rs:1091-1099 | a failed injection is answered with the exec's own id and exit code 126, and the bridge passes output on again |
| ExecRuns.LoopsGoOn | crates/clawcage-agent/src/main.rs:687-725 | in every reachable state the bridge can read or go on, and the control loop can go on unless it waits for a result that is not there |
| ExecRuns.PassesOn | crates/clawcage-agent/src/main.rs:694-702 | whatever is read while no exec is active reaches the host unchanged |
| ExecRuns.ExecIsAnswered | crates/clawcage-agent/src/main.rs:1059-1123 | from any state between execs: an exec whose shell prints an output without marker prefix, the marker of its exit and more, in reads of any size, is answered with that exit, and the host gets output and rest whole |
| ExecRuns.FirstExecIsAnswered | crates/clawcage-agent/src/main.rs:1059-1123 | the same from the start, where the host then has exactly output and rest, and exactly this answer |
| Transport.ReadExact | crates/clawcage-agent/src/transport.rs:187-203 | exactly the requested bytes in order, or none; it succeeds without faults if and only if enough bytes are left |
| Transport.WriteAll | crates/clawcage-agent/src/transport.rs:171-184 | all bytes in order, or a proper prefix after a fault; interruptions, short writes and writes of zero bytes never matter |
| TerminalMux.ReadFrame | crates/clawcage-app/src/main.rs:625-646 | one frame is taken off the stream as the reference parser takes it |
| TerminalMux.ReadFrames | crates/clawcage-app/src/main.rs:613-648 | over any schedule of short reads the reader yields the frames of the stream |
| TerminalMux.ParseUndoesEncode | crates/clawcage-proto/src/lib.rs:285-292 | parsing undoes framing for every list of frames, whatever bytes follow |
| TerminalMux.FrameLayout | crates/clawcage-proto/src/lib.rs:285-292 | the octets of a frame: length and session as 32-bit numbers, largest octet first, then the data |
| TerminalMux.FrameReadsBackIff | crates/clawcage-proto/src/lib.rs:285-292 | a frame reads back exactly if its length field does not wrap around 32 bits |
| TerminalMux.ParsedFramesFit | crates/clawcage-agent/src/main.rs:601-627 | a reader never yields an empty frame or one longer than its length field can say |
| TerminalMux.MoreInputOnlyAddsFrames | crates/clawcage-agent/src/main.rs:599-629 | a stream that ends early yields the first frames of the full stream |
| TerminalMux.SortBySession | crates/clawcage-app/src/main.rs:669 | the result is in session order, and each session's frames keep their order |
| TerminalMux.PushGroups | crates/clawcage-app/src/main.rs:670-682 | one push per session, and each session's bytes are unchanged |
| TerminalMux.TakeGroup | crates/clawcage-app/src/main.rs:672-680 | the inner loop takes all frames of one session that stand together, and their bytes in order |
| TerminalMux.DeliverBatches | crates/clawcage-app/src/main.rs:653-686 | whatever batches the window forms, each session's pushed bytes are its payloads in arrival order |
| TerminalMux.CarryTerminalData | crates/clawcage-app/src/main.rs:607-687 | end to end: encode, short reads, parse, batch, sort, group; every session gets exactly its bytes in order |
| OutputQueue.Enqueue | crates/clawcage-app/src/state.rs:177-182 | a push leaves between one and 64 chunks |
| OutputQueue.TerminalOutputQueue.constructor | crates/clawcage-app/src/state.rs:163-169 | a new queue is open and empty, with no permit |
| OutputQueue.TerminalOutputQueue.Push | crates/clawcage-app/src/state.rs:173-185 | a closed queue is unchanged; an open one drops its oldest chunk when full, appends, and leaves a permit |
| OutputQueue.TerminalOutputQueue.TryPoll | crates/clawcage-app/src/state.rs:189-200 | the oldest chunk, or the end if empty and closed |
| OutputQueue.TerminalOutputQueue.Close | crates/clawcage-app/src/state.rs:210-213 | closed, with a permit, contents kept |
| OutputQueue.TerminalOutputQueue.Reset | crates/clawcage-app/src/state.rs:216-220 | open and empty |
| OutputQueue.QueueIsBoundedFifoAndWakes | crates/clawcage-app/src/state.rs:156-221 | over all interleavings: at most 64 chunks, polled chunks an in-order selection of pushed ones, the queue the newest rest, and no lost wake-up |
| OutputQueue.NothingLostIff | crates/clawcage-app/src/state.rs:177-182 | every chunk that left was polled if and only if no push found the queue full and no reset found it non-empty |
| OutputQueue.LosslessWithoutOverflow | crates/clawcage-app/src/state.rs:156-221 | then polled and queued chunks are all the pushed ones in order |
| QueueRuns.PushesFollowRun | crates/clawcage-app/src/state.rs:156-221 | over every run the chunks pushed are those whose push found the queue open, in the order in which they were appended; whether it is closed and what each thread is in the middle of also follow from the run |
| QueueRuns.PushOnOpen | crates/clawcage-app/src/state.rs:173-185 | a push on an open queue drops the oldest of 64 chunks, appends, and wakes a parked poller or leaves a permit |
| QueueRuns.PushOnClosed | crates/clawcage-app/src/state.rs:174-176 | a push on a closed queue changes nothing |
| QueueRuns.PollPass | crates/clawcage-app/src/state.rs:189-200 | one pass of a poll takes the oldest chunk, or ends if closed, or is about to wait |
| QueueRuns.Waiting | crates/clawcage-app/src/state.rs:200-206 | waiting takes a permit that is there, and parks otherwise |
| QueueRuns.CloseAtOnce | crates/clawcage-app/src/state.rs:210-213 | close sets the flag, notifies, and keeps what is queued |
| QueueRuns.ResetAtOnce | crates/clawcage-app/src/state.rs:216-220 | reset empties and opens the queue |
| QueueRuns.PushBoth | crates/clawcage-app/src/state.rs:173-185 | the class and the machine agree: a push leaves both with the same queue, flag and permit |
| QueueRuns.AllPolledInTurn | crates/clawcage-app/src/state.rs:156-221 | pushes and polls in turn show every chunk |
| TerminalPath.AllShownIff | crates/clawcage-app/src/state.rs:156-221 | bytes polled and still queued are all that was pushed, in order, if and only if no push finds the queue full and no reset finds it non-empty |
| TerminalPath.SomeRunShowsAll | crates/clawcage-app/src/state.rs:156-221 | whatever is pushed, some run pushes exactly that and shows all of it |
| TerminalPath.CarryToFrontend | crates/clawcage-app/src/main.rs:607-687 | from end to end: for every session and every interleaving of pushes, polls and resets, the bytes polled and still queued are those that the guest wrote, in order, if and only if its queue does not overflow so; and for every session there is such a run that shows them all |
| InputBatch.Coalesce | crates/clawcage-app/src/state.rs:350-360 | the inner loop forms the reference batch |
| InputBatch.WriteInput | crates/clawcage-app/src/state.rs:349-374 | the thread writes the frames of the reference batches |
| InputBatch.BatchIsConcatenation | crates/clawcage-app/src/state.rs:350-360 | a batch is the bytes of consecutive messages for one target; a lost message is for another |
| InputBatch.NothingDuplicated | crates/clawcage-app/src/state.rs:349-374 | what is written for a target and what is lost of it add up to its input |
| InputBatch.LostIsDropped | crates/clawcage-app/src/state.rs:349-374 | the lost messages are those found by going through the queue once with the open batch's target and size |
| InputBatch.InputArrivesIff | crates/clawcage-app/src/state.rs:349-374 | a shell gets its input whole and in order if and only if no message with bytes for it is queued while a batch for another shell is open and has room |
| InputBatch.NothingLostIff | crates/clawcage-app/src/state.rs:349-374 | nothing is lost if and only if every message queued right behind one for another target comes when the bytes queued before it fill a batch |
| InputBatch.LittleInputArrivesIff | crates/clawcage-app/src/state.rs:349-374 | input below the batch size is lost in part if and only if some message is queued right behind one for another target |
| InputBatch.NothingLostWithoutSwitch | crates/clawcage-app/src/state.rs:352-359 | nothing is lost if no message is queued right behind one for another target |
| InputBatch.SwitchLosesInput | crates/clawcage-app/src/state.rs:357 | two queued messages for two shells: the second is lost |
| Download.AnswerFileRead | crates/clawcage-agent/src/main.rs:871-981 | for every schedule of short or failing reads the messages form one of the allowed answers, and the undisturbed one if no read fails |
| Download.ReadChunks | crates/clawcage-agent/src/main.rs:927-964 | the chunks cut the content from its start without gap or overlap, up to its end unless a read fails |
| Download.ReadToEnd | crates/clawcage-agent/src/main.rs:907 | a small file is read whole, interrupted calls notwithstanding |
| Download.Downloads.constructor | crates/clawcage-app/src/state.rs:384-386 | ids start at 1, nothing is pending |
| Download.Downloads.RegisterRequest | crates/clawcage-app/src/commands.rs:1154-1157 | a fresh id becomes pending and no other id is touched |
| Download.Downloads.GiveUp | crates/clawcage-app/src/commands.rs:1175-1181 | a timeout removes the pending entry of its id only |
| Download.Downloads.OnMessage | crates/clawcage-app/src/main.rs:773-845 | one message changes only what is held about its id, as the per-id machine says |
| Download.NonInterference | crates/clawcage-app/src/main.rs:773-845 | over every run what the host holds about an id depends on the events of that id alone |
| Download.IdsAreFresh | crates/clawcage-app/src/commands.rs:1155 | later registrations get larger ids |
| Download.RegisteredOnce | crates/clawcage-app/src/commands.rs:1155 | the events of an id hold at most one registration |
| Download.ViewIsExact | crates/clawcage-app/src/main.rs:773-845 | partial data is the file up to the last chunk, the first deciding message answers the requester once unless it gave up, and nothing is left behind |
| Download.DownloadIsExact | crates/clawcage-app/src/main.rs:773-845 | the same over every run with any number of interleaved transfers |
| Download.UnchangedFileIsNeverDamaged | crates/clawcage-agent/src/main.rs:892-977 | for a file that does not change a received answer is the file |
| Download.AnswerIsWholeIff | crates/clawcage-agent/src/main.rs:892-977 | an undisturbed answer of which all messages reach the host is settled with the whole file exactly if it is within the limit and small, or did not shrink and no chunk ends between the announced size and the end |
| ControlChannel.ItemsSizeIs | crates/clawcage-proto/src/lib.rs:257-264 | the octets of a file take one byte each in MessagePack and those from 128 up another |
| ControlChannel.FrameSizeIsNear | crates/clawcage-proto/src/lib.rs:257-264 | a frame is larger than its octets and the high ones again, by less than 75 bytes and its text |
| ControlChannel.FrameSizeIsLength | crates/clawcage-proto/src/lib.rs:251-269 | the size of a file message's frame is the length of its MessagePack encoding, byte by byte |
| GuestMessages.DecodeUndoesEncode | crates/clawcage-proto/src/lib.rs:251-269 | decoding undoes that encoding for every file message whose numbers and lengths fit their types |
| GuestMessages.SmallestMessage | crates/clawcage-proto/src/lib.rs:251-269 | the bytes of an empty file's message in full |
| ControlChannel.ReadControl | crates/clawcage-app/src/main.rs:704-729 | the reader delivers exactly the frames before the first that is too large |
| ControlChannel.SmallFramesArrive | crates/clawcage-app/src/main.rs:704-729 | other messages of at most 262,144 bytes and file messages with few enough octets are all delivered; the first larger one ends the channel |
| ControlChannel.DecisionArrivesIff | crates/clawcage-app/src/main.rs:704-729 | the message that settles a transfer reaches the host if and only if every frame up to it, of whatever transfer, can be read |
| ControlChannel.WholeFileIff | crates/clawcage-app/src/main.rs:704-845 | an undisturbed download yields the whole file if and only if the reads give the file and every frame on the channel up to the settling one can be read |
| ControlChannel.RequesterGetsFileIff | crates/clawcage-app/src/main.rs:704-845 | the same for the answer of the requester, over every run with any number of transfers |
| ControlChannel.UnchangedFileArrivesIff | crates/clawcage-app/src/main.rs:704-845 | a file that does not change arrives if and only if it is within the limit and those frames can be read |
| ControlChannel.OversizedFrameEndsTransfers | crates/clawcage-app/src/main.rs:711-714 | after a frame that is too large no requester whose transfer was not settled gets an answer, in any run |
| ControlChannel.GrownFileBlocksChannel | crates/clawcage-agent/src/main.rs:905-914 | a file announced as small that has grown to the frame limit is sent in one frame that ends the connection |
| ControlChannel.HighOctetsBlockChannel | crates/clawcage-agent/src/main.rs:905-914 | so is an unchanged file whose octets and high octets together reach the limit |
| ControlChannel.BinaryFileNeverArrives | crates/clawcage-proto/src/lib.rs:20-22 | such a file of the size of one chunk, unchanged while it is read |
| ControlChannel.LowOctetsFit | crates/clawcage-proto/src/lib.rs:20-22 | a message of at most one chunk without high octets always fits |
| Download.GrownFileIsCut | crates/clawcage-agent/src/main.rs:927-964 | a file one byte longer than announced arrives without that byte and without an error |
| Boot.SendVariables | crates/clawcage-app/src/main.rs:1739-1788 | of the valid variables, after isolation, the first that the cap leaves room for are sent in order |
| Boot.SendFiles | crates/clawcage-app/src/main.rs:1790-1821 | each file is sent if it still fits the caps and its path is valid |
| Boot.SendBootConfig | crates/clawcage-app/src/main.rs:1702-1862 | the whole script: configuration, variables capped over both sources, files, setup files, end |
| SentVariables.SettingIsSent | crates/clawcage-app/src/main.rs:1739-1788 | a valid settings variable that is not a hidden key is sent with its own value if the cap has room |
| SentVariables.HiddenKeyIsSentAsPlaceholder | crates/clawcage-app/src/main.rs:1752-1757 | with isolation a key from the settings that is set is sent as the placeholder |
| SentVariables.PlaceholderIsSentIff | crates/clawcage-app/src/main.rs:1752-1757 | with isolation, and room, the placeholder is sent under one of the three names if and only if the settings set that key |
| SentVariables.CommandLineIsSent | crates/clawcage-app/src/main.rs:1739-1788 | a valid command-line variable is sent as it is, isolation or not |
| SentVariables.OnlyTheseAreSent | crates/clawcage-app/src/main.rs:1739-1788 | every variable sent is valid and from the command line, or from the settings and not hidden, or the placeholder of a hidden key; at most 128 are sent |
| SentVariables.ScriptIsInOrder | crates/clawcage-app/src/main.rs:1702-1862 | the clock first, then variables, configured files, template files and the end mark, each at its position |
| Boot.ApiKeyVariablesAreIsolated | crates/clawcage-app/src/main.rs:1739-1788 | with credential isolation a variable named like an API key is sent empty, as the placeholder, or as given on the command line |
| Boot.RealKeyVariableIsSentIff | crates/clawcage-app/src/main.rs:1739-1788 | with credential isolation a real key is sent as a variable if and only if a valid command-line variable is one and the cap has room for it |
| GuestConfig.SettingsToGuestConfig | crates/clawcage-core/src/net/policy_config.rs:890-996 | the loop over the settings collects the variables and boot files of the reference collection, or panics where it does |
| KeyIsolation.EnvIs | crates/clawcage-core/src/net/policy_config.rs:890-990 | the environment has a name if and only if a valid setting gives it a value, and its value is the last one given |
| KeyIsolation.FilesAre | crates/clawcage-core/src/net/policy_config.rs:938-974 | the boot files are those of the settings with a document and a valid path, in order |
| KeyIsolation.FileIs | crates/clawcage-core/src/net/policy_config.rs:938-974 | a boot file has its path, its mode and its own content, but for the agents' settings, which get the tool server, and the state file |
| KeyIsolation.ServerIsAdded | crates/clawcage-core/src/net/policy_config.rs:1003-1024 | the tool server is added under its name; every other server and every other member stays |
| KeyIsolation.FirstApprovalIs | crates/clawcage-core/src/net/policy_config.rs:1033-1070 | a document without approvals gets exactly the two lists, with the part in the first |
| KeyIsolation.LastPartIs | crates/clawcage-core/src/net/policy_config.rs:1044-1045 | the part is the last twenty octets, or a shorter key whole, and the cut is inside a character exactly if the octet there is a continuation |
| KeyIsolation.NotIsolatedIff | crates/clawcage-app/src/main.rs:1723-1727 | keys are not isolated if and only if the first setting of that name is a flag that is off |
| KeyIsolation.SomeListing | crates/clawcage-app/src/main.rs:1739-1749 | every environment can be listed in some order, as the hash table does |
| KeyIsolation.ListingHasAll | crates/clawcage-app/src/main.rs:1739-1749 | a listing has as many variables as the environment |
| KeyIsolation.AnyTwoKeys | crates/clawcage-core/src/net/policy_config.rs:914-936 | settings with any two valid keys in one place differ in keys only |
| KeyIsolation.ApprovalAddsPart | crates/clawcage-core/src/net/policy_config.rs:1033-1070 | the list of approved keys gets the part at its end unless it had it, exactly if nothing else is in its place |
| KeyIsolation.ApprovalKeepsRest | crates/clawcage-core/src/net/policy_config.rs:1033-1070 | every other member of the document stays, and only the surrounding ones come to be |
| KeyIsolation.ApprovalIsIdempotent | crates/clawcage-core/src/net/policy_config.rs:1033-1070 | approving twice is approving once |
| KeyIsolation.CollectIs | crates/clawcage-core/src/net/policy_config.rs:890-996 | collecting panics if and only if a state file that is an object is met while a key is in force that has an octet inside a character twenty from its end |
| KeyIsolation.PartOfKeyIsSentIff | crates/clawcage-app/src/main.rs:1739-1821 | a message of the boot carries a part of a key as approved if and only if a state file that is sent can take it and it is the end of the key in force, or the user's own document has it |
| KeyIsolation.KeysReachStateFileOnly | crates/clawcage-app/src/main.rs:1739-1821 | with isolation, settings that differ in keys only send the same variables and collect the same boot files but for the state file |
| KeyIsolation.GuestLearnsNothingIff | crates/clawcage-app/src/main.rs:1702-1862 | they send the same messages if each state file hides the keys, that is cannot take a part or has both or gets the same; and only then, if the caps leave room for all files |
| KeyIsolation.GuestLearnsNothingUnderCapsIff | crates/clawcage-app/src/main.rs:1702-1862 | whatever the caps leave out, with boot files of different paths: the same messages if and only if every state file that is sent hides the keys |
| KeyIsolation.WholeKeyIsSent | crates/clawcage-core/src/net/policy_config.rs:952-960 | with isolation on and no command-line variable a stored key of at most twenty octets goes out whole in a state file that can take it |
| KeyIsolation.AccentedKeyPanics | crates/clawcage-core/src/net/policy_config.rs:1044-1045 | a key of an accented letter and nineteen octets makes the host panic |
| Boot.BootAgent.constructor | crates/clawcage-agent/src/main.rs:282-308 | the agent starts with nothing accepted |
| Boot.BootAgent.OnMessage | crates/clawcage-agent/src/main.rs:286-400 | one message changes environment, files, counters and phase as the reference guest does |
| Boot.BootAgent.OnSetEnv | crates/clawcage-agent/src/main.rs:312-338 | validation, cap, preview and append of a variable |
| Boot.BootAgent.OnFileWrite | crates/clawcage-agent/src/main.rs:339-381 | validation, caps, write and counting of a file |
| Boot.GuestStaysWithinCaps | crates/clawcage-agent/src/main.rs:310-400 | whatever is sent, the guest's variables, files and bytes stay valid and within the caps |
| Boot.HandshakeIsExact | crates/clawcage-app/src/main.rs:1702-1862 | if every message can be delivered, the guest has exactly the variables sent, all configured files sent, and of the setup files those that fit its caps |
| Boot.TakenAgain | crates/clawcage-agent/src/main.rs:338-355 | what the host's caps let through, the guest's caps let through |
| Boot.HandshakeIsExactIff | crates/clawcage-app/src/main.rs:1823-1856 | the guest ends with exactly what was sent if and only if every frame is readable, no preview breaks, and the setup files fit what is left of the caps |
| Boot.FullCapRefusesSetup | crates/clawcage-app/src/main.rs:1823-1856 | if the configured files that are sent use up the file cap, no setup file arrives |
| Boot.SetupFileIsRefused | crates/clawcage-app/src/main.rs:1823-1856 | such a configuration: 64 configured files as the settings give them, and a template's script |
| Boot.SetupFitsIff | crates/clawcage-app/src/main.rs:1823-1856 | setup files are all taken exactly if count, bytes and paths allow |
| Boot.AgentDiesIff | crates/clawcage-agent/src/main.rs:330-334 | the agent panics exactly if a variable that reaches it has more than 40 octets and octet 40 is inside a character |
| Boot.PreviewBreaksIff | crates/clawcage-agent/src/main.rs:330-334 | the preview of a value breaks exactly if it has more than 40 octets and octet 40 is one from 128 to 191 |
| Boot.AccentAtTheCut | crates/clawcage-agent/src/main.rs:330-334 | such values: any 39 octets of text followed by an accented letter |
| Boot.HandshakeNeverStalls | crates/clawcage-app/src/main.rs:916-965 | in every reachable state that is not final some step of host or guest can be taken |
| Boot.HandshakeEnds | crates/clawcage-app/src/main.rs:916-965 | every run is finite, by a bound in the length of the script |
| Boot.HandshakeOutcome | crates/clawcage-agent/src/main.rs:272-400 | however the two sides interleave and whichever files the guest cannot store, it ends with the environment and phase that the script determines, with its files too if all are stored, and the host sees BootReady if and only if the agent survived |
| Lifecycle.StateMachine.constructor | crates/clawcage-core/src/host_state.rs:84-91 | initial state, empty history |
| Lifecycle.StateMachine.Transit | crates/clawcage-core/src/host_state.rs:94-118 | accepted exactly if valid, and then recorded; otherwise nothing changes |
| Lifecycle.TransitionIsValidIff | crates/clawcage-core/src/host_state.rs:41-52 | the transitions, written out in full |
| Lifecycle.GuestMessageIsValidIff | crates/clawcage-core/src/host_state.rs:192-203 | the states in which each guest message is accepted, in full |
| Lifecycle.HostMessageIsValidIff | crates/clawcage-core/src/host_state.rs:167-187 | the states in which each host message may be sent, in full |
| Lifecycle.HistoryIsAChain | crates/clawcage-core/src/host_state.rs:94-118 | the history is always an unbroken chain of valid transitions ending in the current state, and its durations add up to the time passed |
| Lifecycle.AtMostSevenTransitions | crates/clawcage-core/src/host_state.rs:41-52 | no run makes more than seven transitions or enters a state twice |
| Lifecycle.SevenTransitionsHappen | crates/clawcage-core/src/host_state.rs:41-52 | seven is reached |
| Lifecycle.RunningIsReachedOneWay | crates/clawcage-core/src/host_state.rs:41-52 | Running is only entered as the fourth state after Created, by Booting, VsockConnected and Handshaking |
| Lifecycle.GuestMessagesKeepTheirPhases | crates/clawcage-core/src/host_state.rs:192-203 | over every run the accepted guest messages are Ready, then BootReady, then the others |
| Lifecycle.NothingElseBeforeRunning | crates/clawcage-core/src/host_state.rs:192-203 | any other guest message is accepted only after Running was reached |
| Lifecycle.ConfigComesFirst | crates/clawcage-core/src/host_state.rs:167-187 | no configuration message goes out after a message that needs a running guest |
| Lifecycle.HostMessageStates | crates/clawcage-core/src/host_state.rs:167-187 | only a shutdown is valid in every state, and only it and a file write in more than one |
| Lifecycle.StoppedIsFinal | crates/clawcage-core/src/host_state.rs:41-52 | from Stopped nothing changes and nothing is accepted from the guest |
| Calendar.EpochToParts | crates/clawcage-core/src/session.rs:839-875 | for every u64 second count the loops end with the valid fields that recombine to it; the month loop never leaves the table |
| Calendar.ReadingExists | crates/clawcage-core/src/session.rs:839-875 | every second count has a reading in the Gregorian calendar |
| Calendar.ReadingIsUnique | crates/clawcage-core/src/session.rs:839-875 | and no other one |
| Calendar.ReadingInvertsSeconds | crates/clawcage-core/src/session.rs:839-875 | recombining valid fields and reading them again gives them back |
| Calendar.FieldOrderIsTimeOrder | crates/clawcage-core/src/session.rs:839-875 | the order of the fields is the order of the seconds |
| IsoTime.EpochToIso | crates/clawcage-core/src/session.rs:878-881 | the text is the padded fields of the reading (section 5.6 of RFC 3339) |
| IsoTime.IsoIs | crates/clawcage-core/src/session.rs:878-881 | the text is twenty characters up to the year 9999, with the digits of the fields and the separators each at its place |
| IsoTime.TextOrderIsTimeOrder | crates/clawcage-core/src/session.rs:362-366 | up to the year 9999 comparing texts compares instants |
| IsoTime.TextOrderIsTimeOrderIff | crates/clawcage-core/src/session.rs:362-366 | text order is time order on a range of instants if and only if the range ends by the year 9999 |
| IsoTime.AgeCutoffIsExact | crates/clawcage-core/src/session.rs:354-366 | the age statement picks exactly the records created more than the given days ago |
| IsoTime.ParserErrorIsExact | crates/clawcage-app/src/cloud.rs:943-959 | for every instant the parser's error is known exactly: a day more per skipped century leap day, a day less after a leap day |
| IsoTime.SyncIsDueExactly | crates/clawcage-app/src/cloud.rs:884-894 | until 2100 a sync is due exactly after a day, or after a second from March to December of a leap year |
| IsoTime.FractionIsDropped | crates/clawcage-app/src/cloud.rs:943-953 | the parser reads the same fields with blanks around the text and with a fraction of a second |
| IsoTime.MonthsOutOfRange | crates/clawcage-app/src/cloud.rs:955-957 | a month 0 counts as January, one above 12 as December |
| IsoTime.FirstSyncIsDue | crates/clawcage-app/src/cloud.rs:884-894 | without a last sync a sync is due, and a text that does not parse counts as the epoch |
| IsoTime.SyncNeverUnderflowsIff | crates/clawcage-app/src/cloud.rs:887-891 | the subtraction never underflows exactly if the skipped leap days are made up for |
| IsoTime.UnderflowFrom2101 | crates/clawcage-app/src/cloud.rs:891 | right after a sync at 2101-01-01T00:00:00Z it underflows |
| Retention.Sessions.constructor | crates/clawcage-core/src/session.rs:188-196 | the store starts with the given records and directories |
| Retention.Sessions.VacuumRecovery | crates/clawcage-app/src/main.rs:239-245 | of the sessions not vacuumed, those whose database can be compressed become vacuumed |
| Retention.Sessions.CullForBudget | crates/clawcage-app/src/main.rs:277-299 | the shortest oldest-first prefix that meets the budget is culled, or all; of it exactly the sessions with directories are terminated |
| Retention.Sessions.RemoveLeftovers | crates/clawcage-app/src/main.rs:301-346 | directories of terminated sessions, old records and unknown session directories go, nothing else |
| Retention.Sessions.CleanupStaleSessions | crates/clawcage-app/src/main.rs:178-350 | the whole clean-up leaves the store that the set-level statements describe |
| SessionRecords.FinalRecordIs | crates/clawcage-app/src/main.rs:178-350 | for every session: whether its record is kept, and its final status, flag and time, told from its first record and the answers of the queries alone |
| SessionRecords.NoRecordAppears | crates/clawcage-app/src/main.rs:178-350 | no record appears |
| SessionRecords.FinalDirIs | crates/clawcage-app/src/main.rs:178-350 | for every name: whether its directory is kept, told the same way, and that its size does not change |
| SessionRecords.IsSessionIdIff | crates/clawcage-core/src/session.rs:37-49 | a session id is eight digits, six digits and four hexadecimal digits of either case, with dashes between |
| SessionRecords.CullTakesOldest | crates/clawcage-app/src/main.rs:277-299 | no culled session is younger than one left that could be culled |
| SessionRecords.SomeCleanupIsPossible | crates/clawcage-app/src/main.rs:178-350 | whatever the store, settings, time and usage, the queries have some possible answers |
| Retention.ShortestCullIsUnique | crates/clawcage-app/src/main.rs:277-299 | the length of the cull is determined |
| Retention.SurvivorsIff | crates/clawcage-app/src/main.rs:199-299 | a session survives if and only if it was not terminated, is young enough, among the newest, and not culled |
| Retention.RecordStaysIff | crates/clawcage-app/src/main.rs:311-316 | a record is kept if and only if its session survives or it is young enough to be kept after that |
| Retention.NothingMovesBackwards | crates/clawcage-app/src/main.rs:178-350 | afterwards nothing runs, no session has a lower rank than at the start, and no record or directory has appeared |
| Retention.NoStatementMovesBackwards | crates/clawcage-app/src/main.rs:199-316 | between any two of any list of the clean-up's statements, in any order, no session moves back in its life and none reappears |
| Retention.StatementsOfCleanup | crates/clawcage-app/src/main.rs:199-316 | executed one after the other, the six statements leave the records of the whole clean-up |
| Retention.SessionCapHolds | crates/clawcage-core/src/session.rs:373-383 | at most the configured number of sessions remains |
| Retention.SessionDirStaysIff | crates/clawcage-app/src/main.rs:301-346 | a directory with a valid session id stays if and only if its session survives and is known |
| Retention.NoSurvivorLosesItsDirIff | crates/clawcage-app/src/main.rs:318-346 | for one answer to the query: no survivor loses its directory if and only if the answer holds all survivors that have one |
| Retention.EverySurvivorIsSparedIff | crates/clawcage-app/src/main.rs:318-346 | for all answers the database may give: no survivor loses its directory if and only if for each that has one at most 10,000 of the remaining records are not older |
| Retention.OldestSurvivorLosesItsDir | crates/clawcage-app/src/main.rs:318-346 | of 10,001 vacuumed sessions, one a second and within all caps, the oldest survives and loses its directory, whichever possible answer is given |
| Retention.ASurvivorLosesItsDir | crates/clawcage-app/src/main.rs:318-346 | such a store with session ids, settings and answers in full |
| Retention.CleanupOfFewRecords | crates/clawcage-app/src/main.rs:178-350 | with at most 10,000 records: nothing runs, exactly the sessions that no rule terminates are left, at most as many as allowed, exactly their session directories are left, and their and the young records |
| Retention.BudgetIsMet | crates/clawcage-app/src/main.rs:277-346 | afterwards all directories together take no more than the budget, or no survivor has a directory, if the measured usage covers the directories |
| Retention.FewRecordsAreAllKnown | crates/clawcage-app/src/main.rs:318-346 | with at most as many records as the search asks for it knows them all |
| Retention.SmallCapProtectsSurvivors | crates/clawcage-app/src/main.rs:318-346 | a session cap within 10,000 is enough too, if no two sessions began in one second |
| Retention.FailedQueryRemovesEverySession | crates/clawcage-app/src/main.rs:318-346 | with a failed query no session directory is left |
| Retention.CapLeavesAsManyAsAllowedIff | crates/clawcage-core/src/session.rs:373-383 | the cap leaves as many sessions as it allows if and only if the newest records are all sessions that count, or all those are among them |
| Retention.CapExample | crates/clawcage-core/src/session.rs:373-383 | a newer terminated record costs the only live session |
| Retention.CullsSomethingIff | crates/clawcage-app/src/main.rs:277-299 | a session is culled if and only if the usage exceeds the budget and some session has a directory |
| Retention.FreedIsSize | crates/clawcage-app/src/main.rs:277-299 | what the cull subtracts for a list of sessions is the size of their directories |
| Retention.CullsNeedlesslyIff | crates/clawcage-app/src/main.rs:277-309 | the cull takes all sessions needed once the directories of terminated ones are gone; it takes more if and only if the needed ones do not meet the budget by themselves and a session after them has a directory |
| Retention.NeedlessCullExample | crates/clawcage-app/src/main.rs:277-309 | a live session culled though terminating the aged one meets the budget |
| Base64.Encode | crates/clawcage-app/src/venvs.rs:182-205 | the text is the encoding of the bytes by the bit-string definition of section 4 of RFC 4648, padding included |
| Base64.EncodingIsUnique | crates/clawcage-app/src/venvs.rs:182-205 | that definition determines the text |
| Base64.DecodeData | crates/clawcage-app/src/venvs.rs:314-330 | the loop fails exactly on a character outside the alphabet, and otherwise yields the whole bytes of the bit string |
| Base64.Accept | crates/clawcage-app/src/venvs.rs:320-328 | one character keeps fewer than eight bits in the buffer, the value below two to that many, and loses nothing |
| Base64.Decode | crates/clawcage-app/src/venvs.rs:307-331 | the same behind a data URL header |
| Base64.DecodingUndoesEncoding | crates/clawcage-app/src/venvs.rs:307-331 | any answer the decoder may give for an encoding is the encoded bytes |
| Base64.EncodeThenDecode | crates/clawcage-app/src/venvs.rs:182-331 | round trip for every byte sequence, with or without a data URL header |
| Base64.SymbolsAreDistinct | crates/clawcage-app/src/venvs.rs:314-323 | each symbol stands once in the table, and none is skipped or mistaken for a separator |
| Base64.SymbolIs | crates/clawcage-app/src/venvs.rs:314-323 | the table: letters, digits, plus and slash, each with its value |
| Base64.SkippedOctets | crates/clawcage-app/src/venvs.rs:307-319 | exactly padding, line ends and blanks are skipped, and a data URL is read from behind its first comma |
| Utf8Cap.BoundaryIff | crates/clawcage-logger/src/writer.rs:20-25 | in valid UTF-8 (section 4 of RFC 3629) a prefix is whole characters exactly at a position that is no continuation octet |
| Utf8Cap.BoundaryIsNear | crates/clawcage-logger/src/writer.rs:22-24 | such a position is at most three octets back |
| Utf8Cap.Utf8Iff | crates/clawcage-logger/src/writer.rs:15-28 | valid UTF-8 is exactly what encodes a list of code points without surrogates, each in its shortest form (section 3 of RFC 3629) |
| Utf8Cap.CapText | crates/clawcage-logger/src/writer.rs:15-28 | the result is the longest prefix of whole characters within the cap, at most three octets short of it, and what is cut off is whole characters |
| Utf8Cap.CapField | crates/clawcage-logger/src/writer.rs:15-28 | the same at 256 KiB, and an absent field stays absent |
| Debounce.Debouncer.constructor | crates/clawcage-agent/src/fs_watch.rs:89-93 | nothing is pending |
| Debounce.Debouncer.Record | crates/clawcage-agent/src/fs_watch.rs:97-104 | the newest event of a path replaces its pending one |
| Debounce.Debouncer.FlushWith | crates/clawcage-agent/src/fs_watch.rs:108-130 | exactly the entries that are due leave, unchanged |
| Debounce.Debouncer.NextDeadline | crates/clawcage-agent/src/fs_watch.rs:132-143 | the shortest wait of a pending entry |
| Debounce.WindowIs | crates/clawcage-agent/src/fs_watch.rs:97-143 | an entry leaves a flush exactly from 100 milliseconds after its event on |
| Debounce.EmittedExactlyWhenFlushedInTime | crates/clawcage-agent/src/fs_watch.rs:85-144 | an event is emitted, once and in order, if and only if a flush at or after its deadline, or a flush of all, comes before a newer event of its path |
| Debounce.LatestIsPendingOrEmitted | crates/clawcage-agent/src/fs_watch.rs:85-144 | a path's latest event is its pending entry, or else its last emitted one |
| Debounce.FinalFlushLosesNothing | crates/clawcage-agent/src/fs_watch.rs:265-283 | after the final flush nothing is pending and each path's last emitted event is its last recorded one |
| Debounce.SilentIff | crates/clawcage-agent/src/fs_watch.rs:97-120 | a run emits nothing for a path if and only if none of its events is reached by a late enough flush before a newer event, or at all |
| PortMirror.DedupPorts | crates/clawcage-agent/src/port_watch.rs:93-99 | the first socket of each port |
| PortMirror.FirstByPortIsFirst | crates/clawcage-agent/src/port_watch.rs:93-99 | which has every port of the list and for each the entry before all others |
| PortMirror.Watcher.constructor | crates/clawcage-agent/src/port_watch.rs:293 | no port is known |
| PortMirror.Watcher.Poll | crates/clawcage-agent/src/port_watch.rs:329-365 | afterwards exactly the listening ports are known, and the events lead there, each port at most once |
| PortMirror.Watcher.DetectOpened | crates/clawcage-agent/src/port_watch.rs:340-353 | new ports are announced and learnt, known ones keep their process |
| PortMirror.Watcher.DetectClosed | crates/clawcage-agent/src/port_watch.rs:355-365 | vanished ports are announced and forgotten |
| PortMirror.PortState.constructor | crates/clawcage-app/src/main.rs:1399-1412 | the host's list starts empty |
| PortMirror.PortState.OnEvent | crates/clawcage-app/src/main.rs:1399-1427 | an opened port is listed once, a closed one is unlisted and no longer forwarded |
| PortMirror.MirrorAfterPolls | crates/clawcage-app/src/main.rs:1399-1427 | after any number of polls whose events arrived in order, the host lists each listening port of the last poll once with the guest's process, and nothing else |
| PortMirror.NeverListedTwice | crates/clawcage-app/src/main.rs:1399-1427 | whatever events arrive, no port is listed twice |
| SparseCopy.Destination.constructor | crates/clawcage-app/src/snapshots.rs:78-81 | a fresh file of zeros of the given size |
| SparseCopy.Destination.WriteAt | crates/clawcage-app/src/snapshots.rs:95-98 | the bytes at the offset change, no others |
| SparseCopy.CopySparse | crates/clawcage-app/src/snapshots.rs:88-100 | for every schedule of short reads the copy equals the source; after a failed read it equals it up to there; blocks of zeros are never written |

## Left out

- ExecRuns.ExecIsAnswered: is about a shell that prints its marker behind an output without the prefix; if the shell dies, or the first prefix is followed by a payload that does not parse, the scanner holds data back indefinitely, and only what every run keeps is stated.
- The terminal line discipline (echo, line length, special characters) between the injected text and the shell; the shell is modelled by the quoting and word rules that the injected line uses.
- Injection.Lex: covers the words, quotes, separators and the status parameter of the injected line, not the rest of the shell grammar.
- Sentinel.ParseSentinelPayload: does not test for valid UTF-8 separately, because every text that both integer parsers accept is ASCII.
- IsoTime.ParseIso: trims ASCII blanks only, not all Unicode white space.
- Transport.WriteAll: the outcomes of the write calls are a finite schedule, so a descriptor that reports zero bytes forever, on which the source loops, is not modelled.
- OutputQueue.QueueIsBoundedFifoAndWakes: is stated for one poller; a close wakes one waiting poller only.
- TerminalMux.CarryTerminalData: sizes of batches stand for the five-millisecond window; failing reads are covered by ReadFrames and MoreInputOnlyAddsFrames.
- TerminalMux.SortBySession: an insertion sort stands for the library's stable sort; both are fixed by the same specification.
- Download.AnswerFileRead: the file's content is fixed while it is read, though its size may differ from the one announced.
- ControlChannel.WholeFileIff: sizes follow MessagePack's shortest integer, text and list forms, with each octet of a file written as an integer; a message of 4 GiB, whose length wraps around 32 bits, is not modelled, nor what blocks the agent once nobody reads.
- Download.Downloads.RegisterRequest: ids are unbounded; a refused or failed request leaves its entry pending, as an id that no message answers.
- GuestConfig.SettingsToGuestConfig: starts from the resolved settings; the layers of user, venv and corporate files and the list of definitions are not modelled.
- KeyIsolation.PartOfKeyIsSentIff: the JSON library is a pair of functions for which a written value reads back, numbers included.
- InputBatch.WriteInput: a descriptor that cannot be cloned or written to loses a batch silently; the model's writes succeed.
- TerminalPath.CarryToFrontend: is about a queue that takes every chunk pushed; a chunk pushed after the queue was closed is dropped.
- Boot.HandshakeIsExactIff: the encoded size of a message is a predicate, and both sides' validators are predicates shared by both; channels are unbounded and do not fail.
- What the agent's control loop makes of handshake messages that are still in the channel when a frame too large to read ended the handshake.
- Retention.Sessions.CleanupStaleSessions: file-system and database operations succeed, apart from compression and the orphan query; directory sizes are those the cull measures; summaries, backfill, scratch images and checkpoints are not modelled.
- Debounce.Debouncer.FlushWith: the flushed entries form a map, because the source emits different paths in the unspecified order of a hash table.
- GuestMessages.Decode: takes the fields of a message in the order in which they are written; the source's decoder takes them in any order.
- PortMirror.Watcher.Poll: lines of the socket tables are taken as parsed; only the state and the hidden port decide.
- SparseCopy.CopySparse: the fallback to a plain copy when the sparse file cannot be created is a library call.
- The per-session map of output queues, the batching of database writes, the process snapshots, and the parsers of /proc, which would add only easy members.
- Devices and foreign calls (PTY, fork, ioctl, vsock connect, inotify, virtualization, keychain), HTTP, OAuth, compression, encryption, SQLite itself, floating-point metrics, and the front ends.
