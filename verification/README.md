# sysDetector: a verified model

sysDetector watches Linux processes and files. A kernel program (`proc.bpf.c`) reports exec,
fork and exit events to a process worker (`proc.c`); a file worker (`fs.c`) reads inotify
events; a server (`rpc.rs`, `main.rs`) passes the commands of a command-line client to both
workers over message queues. This project models the stateful parts of all five programs and
proves what they keep over every run.

Code that updates tables in place is modelled by classes over arrays with the loops of the
source (`ProcWorker.Worker`, `FsWorker.Worker`, `ArgvCache.Programs`, `FsLineBuffer`,
`ArgvJoin`, `CommandCodec.SplitSpace`). Each method is proved to end in the state that a
specification function names, and the properties are proved of runs of these functions; the
effect of each operation is also stated in plain terms, without its specification function
(`ExecIsTracked`, `SwitchIsExact`, `LineIsWrittenExactly`, `EventIsRecorded`,
`FileGivesConfig` and others). The two concurrent parts, the monitor thread against the
command handler and the server against the workers, are state machines whose steps interleave
freely.

| module | what it models |
|---|---|
| `CStrings`, `Decimals`, `MachineWords` | C strings, `snprintf`, decimal text, 32-bit words |
| `Slots` | which slot a full table gives up |
| `ProcTable`, `ProcRefinement` | the table of tracked processes, and its refinement of an unbounded map |
| `ShortLived`, `BurstLimits` | counting of short-lived exits and burst reports, and how tight the bounds are |
| `ProcWorker`, `ProcRuns` | the process worker on arrays, and its runs |
| `Monitor`, `MonitorRounds` | monitor thread and command handler as interleaved steps, and what the thread does from tick to tick |
| `RpcProtocol`, `RpcWaits`, `WorkerKinds` | clients, server, workers, queues, timeouts and the shared output file, and how each worker treats the kinds of commands told apart there |
| `CommandCodec`, `ResponseCodec` | commands and responses on their way between the programs |
| `ArgvJoin`, `ArgvCache` | the bounded argument line, and the kernel-side argument cache |
| `FsConfigFile`, `FsLineBuffer`, `FsFileText` | config files: parsing, printing, the line buffer they are read in, and what their text says |
| `FsStore`, `FsWatch`, `FsEvents` | the config directory, the packed watch table, records and the event ring |
| `FsWorker`, `FsRuns` | the file worker on arrays, and its runs |

Characters are bytes. Clocks, command outcomes, inotify answers, timeouts and the interleaving
are inputs of the model, so every statement holds for all of them. Table sizes are constants in
the classes; the lemmas on slots, counters, the ring and the kernel map hold for any size.

`dafny verify dfyconfig.toml` checks the project.

Where code and documentation differ, the model follows the code:

- `src/sysDetector-ebpf/configs/fs/README.md:27` says that a repeated key makes parsing fail; in
  `fs.c:102-133` the last setting of a key wins (`LastSettingWins`).
- `src/sysDetector-ebpf/configs/proc/README.md:27` gives the period in units of 100 ms;
  `proc.c:866-867` compares it with whole seconds.
- OPERATIONS is documented as the operations to monitor; `fs.c` stores and prints it but never
  consults it.

## Model

| member | source | states |
|---|---|---|
| `ProcRefinement.TrackedPidsAreSubset` | src/sysDetector-ebpf/proc/proc.c:442-466 | For every sequence of events and any capacity of at least one slot, the tracked pids are a subset of the pids of the same run on an unbounded map. |
| `ProcRefinement.TrackedIsSubMap` | src/sysDetector-ebpf/proc/proc.c:567-691 | When every fork names a pid the unbounded map does not hold, every tracked record is the unbounded map's record, also when a full table gives up the forking parent's own slot. |
| `ProcRefinement.TrackedIsExactWhileItFits` | src/sysDetector-ebpf/proc/proc.c:442-691 | While the unbounded map never holds more pids than there are slots, table and map are equal. |
| `ProcRefinement.TrackedIsExactlyWhatFits` | src/sysDetector-ebpf/proc/proc.c:442-691 | Table and unbounded map are equal all along a run if and only if the map never holds more pids than there are slots. |
| `ProcRefinement.AgreementStep` | src/sysDetector-ebpf/proc/proc.c:567-691 | From agreeing records, one event keeps them in agreement if and only if it is not a fork whose parent was evicted and whose pid the table holds under another record. |
| `ProcRefinement.RunAgreesExactly` | src/sysDetector-ebpf/proc/proc.c:567-691 | For every run and any capacity, the records of table and unbounded map agree all along the run if and only if no fork of the run diverges. |
| `ProcRefinement.StaleForkMakesRecordsDiffer` | src/sysDetector-ebpf/proc/proc.c:670-691 | For a table of any size a concrete run after which it holds a record the unbounded map does not: one process too many is started, and the evicted one forks. |
| `ProcRefinement.StepIsMapStepLessEvicted` | src/sysDetector-ebpf/proc/proc.c:567-691 | On pid-to-record maps one event on the slots is the event on the unbounded map, less the evicted pid; active pids stay distinct. |
| `ProcRefinement.EvictionIsLastResort` | src/sysDetector-ebpf/proc/proc.c:451-466 | A pid is lost only when all slots are active and the event's pid is absent; it has the smallest `last_seen`; every event leaves all slots but one untouched. |
| `ProcRefinement.RunDistinct` | src/sysDetector-ebpf/proc/proc.c:442-449 | In every reachable table the active pids are pairwise distinct, so the first match is the only one. |
| `ProcRefinement.TrackingIsConfigScoped` | src/sysDetector-ebpf/proc/proc.c:473-487 | Every active slot's file name, argument line and `first_seen` come from an earlier exec event at which a switched-on config had the event's command name, or the part of its path behind the last slash, as its name; and a chain of later forks leads from that event's pid to the slot's pid. |
| `ProcRefinement.RecordIsItsLastWrite` | src/sysDetector-ebpf/proc/proc.c:582-589 | Every active slot's pid, parent, command name and `last_seen` are those of one earlier event for that pid, and no later event wrote or freed the pid. |
| `ProcRefinement.ExecIsTracked` | src/sysDetector-ebpf/proc/proc.c:567-593 | After any run an exec event whose command name, or the part of whose path behind the last slash, is the name of a switched-on config tracks its pid under what the event says, from now on, and takes out at most one other pid, the stalest of a full table; any other exec event leaves the table as it is. |
| `ProcRefinement.ForkIsTracked` | src/sysDetector-ebpf/proc/proc.c:670-691 | After any run a fork of a tracked process tracks the child under its parent's record, also its `first_seen`, with the child's ids and name; any other fork leaves the table as it is. |
| `ProcRefinement.ExitEndsTracking` | src/sysDetector-ebpf/proc/proc.c:645-668 | After any run an exit ends the tracking of its pid and changes no other record. |
| `ProcTable.WriteTarget` | src/sysDetector-ebpf/proc/proc.c:451-466 | Writing the slot chosen for a pid changes the map by one update, after losing at most the stalest other pid. |
| `ProcTable.FindIsLookup` | src/sysDetector-ebpf/proc/proc.c:442-449 | With distinct pids the linear search finds a slot exactly when the map has the pid, and the slot holds the map's record. |
| `ProcTable.Basename` | src/sysDetector-ebpf/proc/proc.c:468-471 | The result is the part of the path behind its last slash, or the path when it has none. |
| `ProcTable.EnabledIsConfigured` | src/sysDetector-ebpf/proc/proc.c:473-487 | The scan's outcome in terms of config fields: some config is switched on and its name is the command name, or what stands behind the last slash of the path. |
| `ShortLived.BurstIsBacked` | src/sysDetector-ebpf/proc/proc.c:619-643 | With a clock that never goes back, a burst is reported only when at least 5 short-lived exits of that command lie in the 10 s up to it. |
| `ShortLived.EightExitsAreReported` | src/sysDetector-ebpf/proc/proc.c:619-643 | Any stretch of exits of at most 10 s with 8 of one command reports a burst of it, unless its counter is evicted in between. |
| `ShortLived.FewCommandsKeepCounters` | src/sysDetector-ebpf/proc/proc.c:604-628 | While no more commands than counters have been seen, exactly the commands seen have a counter. |
| `ShortLived.EightExitsOfFewCommands` | src/sysDetector-ebpf/proc/proc.c:604-643 | 8 exits of one command within 10 s are always reported when no more commands than counters have been seen. |
| `BurstLimits.ReportingIsExact` | src/sysDetector-ebpf/proc/proc.c:595-643 | For any number n of counters up to 4096: bursts of m exits of one command within 10 s, by the end of which at most c commands have been seen, are always reported within the burst if and only if m is at least 8 and c at most n. |
| `BurstLimits.EvictionHidesBursts` | src/sysDetector-ebpf/proc/proc.c:604-628 | One command more than counters is too many: for every number of counters up to 4096 a run among that many commands plus one, in which any number of exits of one command in the same second report nothing. |
| `BurstLimits.SevenExitsMayGoUnreported` | src/sysDetector-ebpf/proc/proc.c:630-642 | Eight is tight for any number of counters: a run whose last seven exits of one command fall within 3 s reports nothing, though the counter stays. |
| `ShortLived.CountersAreSound` | src/sysDetector-ebpf/proc/proc.c:595-635 | In every reachable state active counters have distinct commands, and each count is at least 1 and at most the number of exits of its command since its window began. |
| `ShortLived.CounterOfStep` | src/sysDetector-ebpf/proc/proc.c:595-628 | An exit changes its own command's counter; the counter of any other command stays as it is or is evicted. |
| `ProcWorker.Worker.FindTracked` | src/sysDetector-ebpf/proc/proc.c:442-449 | The loop over the slots returns the first active slot of the pid. |
| `ProcWorker.Worker.AllocTracked` | src/sysDetector-ebpf/proc/proc.c:451-466 | The loop returns the first free slot, or in a full table the first of those with the smallest `last_seen`. |
| `ProcWorker.Worker.IsEnabled` | src/sysDetector-ebpf/proc/proc.c:473-487 | The scan returns whether a switched-on config has the command name, or the part of the file name behind its last slash, as its name. |
| `ProcWorker.Worker.TrackExec` | src/sysDetector-ebpf/proc/proc.c:567-593 | The slot array ends as the specification of an exec event says, with the argument line built in a bounded buffer. |
| `ProcWorker.Worker.TrackExit` | src/sysDetector-ebpf/proc/proc.c:645-668 | Slots, counters and burst log end as specified: an exit at most 2 s after the record's `first_seen` is counted under the record's command name, and no other. |
| `ProcWorker.Worker.TrackFork` | src/sysDetector-ebpf/proc/proc.c:670-691 | The slot array ends as the specification of a fork says, also when the child takes the parent's own slot. |
| `ProcWorker.Worker.RecordShortLived` | src/sysDetector-ebpf/proc/proc.c:619-643 | Counters and burst log end as specified: find or allocate, restart the window after 10 s, count, report from 5 on. |
| `ProcWorker.Worker.HandleEvent` | src/sysDetector-ebpf/proc/proc.c:725-746 | The whole state ends as specified; nothing changes while monitoring is stopped. |
| `ProcWorker.Worker.HandleStatus` | src/sysDetector-ebpf/proc/proc.c:327-354 | Exactly the first config of the id is switched and stamped, answered with success; a missing, malformed or unknown id changes nothing but is answered as invalid. |
| `ProcWorker.Worker.HandleCommand` | src/sysDetector-ebpf/proc/proc.c:748-782 | The whole state ends as the specification of the command says, though the code decides by the first letters of a valid option; `ProcWorker.WordsDecide` says what that is for every message. |
| `ProcWorker.SwitchIsExact` | src/sysDetector-ebpf/proc/proc.c:748-782 | A start is refused with -2 if the worker is started, and a stop if it is stopped; else it is answered with -1 if the id is missing or no config has it; else with 0, the first config of the id is switched and stamped, the worker is started or stopped, and nothing else changes. |
| `ProcWorker.WordsDecide` | src/sysDetector-ebpf/proc/proc.c:748-782 | For every message: a start or stop comes to the above with its second word as id; any other message leaves configs, running state, table and log alone and is answered with 0 if it is a list of a known scope, and with -1 otherwise. |
| `ProcWorker.UlongExactly` | src/sysDetector-ebpf/proc/proc.c:334-341 | Of an id, space, a sign or none and digits worth at most 2^64 - 1 are accepted, wrapping around behind a minus sign; everything else is refused. |
| `ProcWorker.Worker.ListTracked` | src/sysDetector-ebpf/proc/proc.c:387-405 | The loop writes one row for every active slot in slot order, with its runtime. |
| `ProcRuns.WorkerDrivesTheTable` | src/sysDetector-ebpf/proc/proc.c:725-782 | Over any run of commands, events and monitor writes, slots, counters and log of the worker are those of the table and counter runs on the events taken in while started. |
| `ProcRuns.SwitchesAlternate` | src/sysDetector-ebpf/proc/proc.c:748-782 | Over any run successful starts and stops strictly alternate, beginning with a start, and the worker runs exactly after an odd number of them. |
| `ProcRuns.CommandTouchesOneConfig` | src/sysDetector-ebpf/proc/proc.c:327-354 | Every command gets one response, changes at most one config, and only as a successful start or stop: its switch and its check time. `ProcWorker.SwitchIsExact` says when it succeeds. |
| `ProcRuns.TableChangesOnlyWhileStarted` | src/sysDetector-ebpf/proc/proc.c:725-746 | Before the first successful start and after a successful stop no input changes slots, counters or log. |
| `ProcRuns.ExitsCountedExactly` | src/sysDetector-ebpf/proc/proc.c:653-664 | After any run an event adds to the short-lived exits if and only if it is the exit of a tracked process at most 2 s after the `first_seen` of its record, and then one under the record's name and the event's time. |
| `ProcRuns.LineIsWrittenExactly` | src/sysDetector-ebpf/proc/proc.c:619-643 | One more short-lived exit raises its command's count by one, or begins a window with count 1 when the command has no counter or more than 10 s have passed since its window began; it writes one line with the count if and only if this is at least 5. |
| `ProcRuns.LoggedBurstIsBacked` | src/sysDetector-ebpf/proc/proc.c:657-664 | In any run of the worker with events in clock order, every burst line in its log was written by one exit of a tracked process of that name at most 2 s after its `first_seen`, the last of at least 5 such exits within 10 s. |
| `ProcRuns.EightExitsAreLogged` | src/sysDetector-ebpf/proc/proc.c:619-643 | In any run of the worker with events in clock order, one of any 8 exits of tracked processes of one name, each at most 2 s after its `first_seen` and all within 10 s, writes a burst line of it into the log, if no more commands than counters have exited so, or else if its counter is not evicted in between. |
| `ProcRuns.FewNamesAreNotEvicted` | src/sysDetector-ebpf/proc/proc.c:604-643 | When the exec and fork events have no more command names than there are counters, no counter is ever evicted. |
| `ProcRuns.TrackedListingIsComplete` | src/sysDetector-ebpf/proc/proc.c:387-405 | `list tracked` shows every tracked process exactly once, with its age. |
| `ProcWorker.ListedIdIsReadBack` | src/sysDetector-ebpf/proc/proc.c:334-341 | Every id a listing prints is read back as the same id. |
| `Monitor.AlarmsAreAuthorised` | src/sysDetector-ebpf/proc/proc.c:865-901 | In every interleaving the alarms run for a config are at most its successful starts, plus one if it was on at first. |
| `Monitor.ChecksAreSpaced` | src/sysDetector-ebpf/proc/proc.c:866-900 | In every interleaving any two rounds on one config begin at tick times at least its period apart. |
| `Monitor.RoundsEndRight` | src/sysDetector-ebpf/proc/proc.c:869-898 | Every round makes at most 3 recoveries, as many as re-checks and each before its re-check; once its last check is over and its alarm if due has run, it has stopped at the first success, and the alarm ran exactly when the check and all 3 re-checks failed. |
| `Monitor.SwitchedOffByStopOrAlarm` | src/sysDetector-ebpf/proc/proc.c:342-350 | A switch goes off only by a stop command or behind an alarm of the same config. |
| `Monitor.StartIsLostExactlyBehindAnAlarm` | src/sysDetector-ebpf/proc/proc.c:890-897 | In every interleaving a start that no later command on its config and no later alarm of it undoes is lost if and only if its switch was set between an alarm of this config and the switching off behind it, and that has happened. |
| `Monitor.StartCanBeLost` | src/sysDetector-ebpf/proc/proc.c:872-897 | A concrete interleaving, with the 2 s the thread sleeps at each recovery, in which this happens: the start is answered with success, yet the config ends switched off. |
| `MonitorRounds.EveryConfigIsVisited` | src/sysDetector-ebpf/proc/proc.c:865-900 | In every interleaving, each config the thread is past since a tick was left exactly once: its switch was off when read; or less than its period had gone by when its last check time was read; or its switch was on, its period over, and a round on it with that tick's time has ended, which records the outcomes, recoveries and alarm of exactly the steps taken, switched it off exactly behind the alarm, and stamped it with that time. |
| `MonitorRounds.LastCheckTime` | src/sysDetector-ebpf/proc/proc.c:866-900 | In every interleaving the last check time of a config is the tick time of its last round or the time of its last start or stop, whichever was written last; before any it is the loaded one. |
| `MonitorRounds.CommandsAlternate` | src/sysDetector-ebpf/proc/proc.c:748-778 | In every interleaving successful commands are starts and stops in turn, beginning with a start, whatever the thread switches off. |
| `MonitorRounds.CommandUnderWay` | src/sysDetector-ebpf/proc/proc.c:342-350 | A command that has set a switch and is to stamp does so for the config and switch of the last step that set one. |
| `MonitorRounds.NothingBlocks` | src/sysDetector-ebpf/proc/proc.c:860-904 | In every reachable state the thread can act; and the handler takes a start of any config exactly when monitoring is stopped and a stop when it runs, or can end its command. |
| `MonitorRounds.TicksEnd` | src/sysDetector-ebpf/proc/proc.c:865-901 | From a tick the thread takes at most 12 steps for each config, and one, until it sleeps. |
| `RpcProtocol.NthResponseAnswersNthCommand` | src/sysDetector-server/src/rpc.rs:63-84 | On each queue pair, commands sent are those queued, the one in the worker, the responses queued and the responses received, each exactly once and in order; so the n-th response answers the n-th command. |
| `RpcProtocol.AnswersItsOwnCommand` | src/sysDetector-server/src/rpc.rs:107-132 | An answer lags behind its request by exactly the number of earlier timeouts of its pair; so it is to its own command if and only if there was none. |
| `RpcProtocol.OutstandingAreTheTimeouts` | src/sysDetector-server/src/main.rs:44-53 | At every moment the commands outstanding in the whole system are as many as have timed out, and one more while the server waits. |
| `RpcProtocol.WithoutTimeoutsListsAreTheirOwn` | src/sysDetector-server/src/main.rs:44-53 | Without a timeout at most one command is outstanding in the whole system, every answer is to its own command, and a successful list returns the listing its worker wrote for it, though both workers share one output file. |
| `RpcProtocol.ListIsItsOwnExactly` | src/sysDetector-server/src/rpc.rs:74-81 | The answer to a known list, on a pair that never timed out, is a success for this very command, and its body is its own listing if and only if the other worker has neither emptied nor filled the output file since this worker emptied it for this list. |
| `RpcProtocol.BodyIsOwnExactly` | src/sysDetector-server/src/rpc.rs:74-81 | Whatever timed out before, the body given to a list is its own listing if and only if its worker has emptied and filled the output file for it and nothing was written otherwise since. |
| `RpcProtocol.ListIsItsOwnWhenClear` | src/sysDetector-server/src/rpc.rs:74-81 | Also after timeouts of the other pair, a successful list returns its own listing if its own pair never timed out and the other worker had no listing left to write when it was sent. |
| `RpcProtocol.ListCanBeForeign` | src/sysDetector-server/src/rpc.rs:74-81 | A concrete run in which only the file worker's pair timed out, and a process list answered by its own worker is given the file worker's unfinished listing. |
| `RpcProtocol.AnswersCanBeLate` | src/sysDetector-server/src/rpc.rs:107-132 | A concrete run in which a client is given the answer to an earlier command. |
| `RpcProtocol.PairNeverRecovers` | src/sysDetector-server/src/rpc.rs:107-132 | Once a pair has timed out, no later answer of that pair is to its own command. |
| `RpcWaits.WaitsEnd` | src/sysDetector-server/src/rpc.rs:107-132 | Whenever the server waits on a pair, it can receive or the pair's worker can act; and the wait takes at most 5 such steps for each earlier timeout of the pair and 5 for the command itself. |
| `RpcWaits.AnswerIsReadWhenDue` | src/sysDetector-server/src/rpc.rs:76-83 | A list is answered with what the output file holds at that moment, any other command with no body. |
| `RpcWaits.OnlyListsHaveBodies` | src/sysDetector-server/src/rpc.rs:77-81 | In every reachable state no answer to a start, a stop or an unknown command has a body. |
| `CommandCodec.ValidateCommand` | src/sysDetector-server/src/rpc.rs:152-182 | A command is accepted exactly when it is for a worker and its option is valid; the text is option and identifiers joined by single spaces. |
| `CommandCodec.Strtok` | src/sysDetector-ebpf/proc/proc.c:913-918 | The first word of the rest of the buffer is ended in place by a NUL over the space behind it; nothing else changes and the search resumes behind it. |
| `CommandCodec.SplitSpace` | src/sysDetector-ebpf/proc/proc.c:907-923 | The tokens left in the buffer are the first words of the text, up to the limit. |
| `CommandCodec.ReceiveCommand` | src/sysDetector-ebpf/proc/proc.c:982-992 | The tokens of a received text of fewer than 1024 bytes are the words before its first NUL, up to the limit. |
| `CommandCodec.TokenLimitNeverBinds` | src/sysDetector-ebpf/proc/proc.c:915 | No text of fewer than 1024 bytes has as many words as the token array holds. |
| `CommandCodec.WordsOfJoin` | src/sysDetector-server/src/rpc.rs:156-161 | Joining parts with spaces and cutting at spaces gives the words of the parts, in order. |
| `CommandCodec.TokensOfCommand` | src/sysDetector-server/src/rpc.rs:152-182 | The words of the text sent are the option and the non-empty space-separated pieces of the identifiers in order; exactly the identifiers when these are words. |
| `CommandCodec.SendCommand` | src/sysDetector-server/src/rpc.rs:68-71 | From the client's command through the server's text and the worker's buffer to the tokens: what the server accepts and does not find too large arrives as the words before its first NUL, and without a NUL as the option and the words of the identifiers. |
| `WorkerKinds.ProcAnswersByKind` | src/sysDetector-ebpf/proc/proc.c:407-422 | Every message to the process worker is answered once; a list of a known scope is answered with 0 and writes its rows, a list of an unknown scope with another code, and no other message writes the output file. |
| `WorkerKinds.FsAnswersByKind` | src/sysDetector-ebpf/fs/fs.c:285-318 | The same for the file worker. |
| `CommandCodec.CommandReachesItsBranch` | src/sysDetector-ebpf/proc/proc.c:755-781 | Every accepted option is dispatched to its own branch, and to no other; the scope of a list is its first identifier word. |
| `CommandCodec.ListedIdIsStarted` | src/sysDetector-ebpf/proc/proc.c:758-777 | Starting or stopping an id that a listing printed asks the worker for that very id. |
| `CommandCodec.SwitchEndToEnd` | src/sysDetector-ebpf/proc/proc.c:748-782 | From the text a client sends for a listed id to the worker's state: refused with -2, invalid with -1 or carried out with 0, as `ProcWorker.SwitchIsExact` says. |
| `ResponseCodec.CodeTextIsReadBack` | src/sysDetector-server/src/rpc.rs:76 | Every 32-bit code fits the worker's 16-byte buffer, and the server parses it back. |
| `ResponseCodec.ServerCodeExactly` | src/sysDetector-server/src/rpc.rs:76 | The code taken from a response is the number it holds between space, a sign or none and digits, if this fits 32 bits; it is 1 for every other text. |
| `ResponseCodec.ServerReply` | src/sysDetector-server/src/main.rs:55-58 | The server writes code, length and body as one frame. |
| `ResponseCodec.FrameBytes` | src/sysDetector-server/src/main.rs:55-58 | On the wire a response is the code modulo 2^32 in four bytes, the length in four bytes, and the body. |
| `MachineWords.ByteOrder` | src/sysDetector-server/src/main.rs:55-57 | The four bytes of a number are its digits to the base 256, the most significant first on the socket and last in an inotify header. |
| `ResponseCodec.ServerReadRequest` | src/sysDetector-server/src/main.rs:37-42 | The server reads exactly one counted request and leaves the rest; a short stream gives an error. |
| `ResponseCodec.CliReadResponse` | src/sysDetector-cli/src/main.rs:44-54 | The client reads code and counted body of one response; a short stream gives an error. |
| `ResponseCodec.CountedIsReadBack` | src/sysDetector-server/src/main.rs:57-58 | A counted body is read back, and what follows is left, if and only if its length fits 32 bits. |
| `ResponseCodec.ServerCodeSurvives` | src/sysDetector-server/src/main.rs:55-58 | Whatever text a response holds, the client gets the 32-bit code the server took from it and the body, if and only if the body is shorter than 2^32 bytes. |
| `ResponseCodec.ResponseSurvives` | src/sysDetector-server/src/main.rs:55-58 | Every 32-bit code with its body reaches the client unchanged, if and only if the body is shorter than 2^32 bytes. |
| `ArgvCache.EventCarriesLatestArgs` | src/sysDetector-ebpf/proc/proc.bpf.c:69-74 | Every submitted exec event carries the arguments of the latest `execve` of its own tgid since that tgid's last submitted event, exactly unless the full map refused it; and none when it was refused or there was none; never another tgid's. |
| `ArgvCache.CacheHoldsExactly` | src/sysDetector-ebpf/proc/proc.bpf.c:110-128 | After any trace the map holds a tgid if and only if it has a call to remember that was not refused. |
| `ArgvCache.CacheHoldsLatest` | src/sysDetector-ebpf/proc/proc.bpf.c:110-128 | After any trace, what the map holds for a tgid is its latest call; it holds nothing only when there is nothing to remember or that call met a full map. |
| `ArgvCache.CacheIsExactWhileItFits` | src/sysDetector-ebpf/proc/proc.bpf.c:33-38 | While no more tgids are pending than the map has entries, the map holds exactly the latest call of every tgid. |
| `ArgvCache.ArgsWaitForTheirEvent` | src/sysDetector-ebpf/proc/proc.bpf.c:133-136 | The first 63 characters of each of the six strings of an accepted call, in order and empty for a null pointer, are carried by the next submitted event of its tgid, however many failed reservations of its own and calls of other tgids come before. |
| `ArgvCache.Programs.HandleExecve` | src/sysDetector-ebpf/proc/proc.bpf.c:110-128 | The map ends with the six strings, each cut to its 64-byte row, under the caller's tgid, unless it is full and the tgid new. |
| `ArgvCache.Programs.HandleExec` | src/sysDetector-ebpf/proc/proc.bpf.c:130-139 | The event takes the cached arguments, which are deleted; without room in the ring nothing changes. |
| `ArgvJoin.JoinEventArgv` | src/sysDetector-ebpf/proc/proc.c:493-517 | For any arguments and any non-empty buffer, the in-place loop leaves a NUL-terminated string: the single-space join of the non-empty arguments, cut to the buffer. |
| `ArgvJoin.AppendArg` | src/sysDetector-ebpf/proc/proc.c:501-516 | One round appends a separator and an argument, or fills the buffer with as much as fits. |
| `ArgvJoin.KeepsTheNonEmpty` | src/sysDetector-ebpf/proc/proc.c:501-504 | Wherever it stands, an argument is kept exactly when it is not empty, and all others are kept or left out as without it, in their order. |
| `FsLineBuffer.Trim` | src/sysDetector-ebpf/fs/fs.c:67-74 | The string in the buffer is replaced in place by itself without spaces at both ends; nothing before or behind it changes. |
| `FsLineBuffer.Fgets` | src/sysDetector-ebpf/fs/fs.c:113 | One read takes a line with its newline, or as much as fits 511 bytes, and a NUL. |
| `FsLineBuffer.NextSetting` | src/sysDetector-ebpf/fs/fs.c:112-122 | One round on the line buffer finds the key and value of the next chunk: none on blank lines, comments and lines without `=`. |
| `FsFileText.PiecesAreTheFile` | src/sysDetector-ebpf/fs/fs.c:113 | The pieces a file is read in, put together, are the file; each has 1 to 511 characters and a newline at most at its end, and is shorter than 511 without one only at the end of the file. |
| `FsFileText.LineIsSetting` | src/sysDetector-ebpf/fs/fs.c:114-122 | Space, a key, space, `=`, space, a value and space set the key to the value without the space, whatever the value holds; the key is no comment and holds no `=`. |
| `FsFileText.NoSetting` | src/sysDetector-ebpf/fs/fs.c:115-117 | A line sets nothing if and only if it has no `=` or its first character that is no space is `#`. |
| `FsFileText.FileGivesConfig` | src/sysDetector-ebpf/fs/fs.c:102-133 | A file gives a config if and only if its last NAME and its last PATH are not empty; its switch is on exactly if the last MONITOR_SWITCH is `on` in any case; the other fields are the last settings cut to 255 characters, with `write,delete,rename,chmod` and no alarm as defaults. |
| `FsFileText.LastSettingIs` | src/sysDetector-ebpf/fs/fs.c:124-128 | The last setting of a key is the value that some line sets and no line behind it does. |
| `FsConfigFile.ParseIsWellParsed` | src/sysDetector-ebpf/fs/fs.c:102-133 | Every parsed config has a name and a path, and fields of fewer than 256 characters on one line without leading space, under the id it was parsed with. |
| `FsConfigFile.LastSettingWins` | src/sysDetector-ebpf/fs/fs.c:113-129 | Every field of a parsed file ends with the last setting of its key, cut to 255 characters, and keeps its default when there is none; a repeated key is no error. |
| `FsConfigFile.PrintedIsReadBack` | src/sysDetector-ebpf/fs/fs.c:156-177 | Parsing what is printed for a config gives it with trailing space stripped from each field and an empty alarm replaced by "true"; the switch is kept. |
| `FsConfigFile.PrintIsReadBack` | src/sysDetector-ebpf/fs/fs.c:102-177 | The same for every config that any file was parsed to. |
| `FsConfigFile.PrintedChunk` | src/sysDetector-ebpf/fs/fs.c:168-170 | Every printed line is read by one `fgets`, whatever follows it. |
| `FsConfigFile.SecondPrintChangesNothing` | src/sysDetector-ebpf/fs/fs.c:102-177 | A second print and parse changes nothing. |
| `FsConfigFile.PrintIsExact` | src/sysDetector-ebpf/fs/fs.c:102-177 | The first round trip is exact if and only if an alarm is set and no field ends in a space. |
| `FsStore.ReloadAfterSwitch` | src/sysDetector-ebpf/fs/fs.c:291-299 | With distinct ids, writing loaded config k with its switch set and loading again gives the same list but for that config: switch set, fields as printing leaves them. |
| `FsStore.LoadedIdsAreDistinct` | src/sysDetector-ebpf/fs/fs.c:151-154 | With distinct ids in the directory no two loaded configs share an id. |
| `FsFileText.LoadIsTheFirst128` | src/sysDetector-ebpf/fs/fs.c:135-149 | The configs loaded are exactly the first 128 that regular, visible files with names ending in `.conf` give, in directory order. |
| `FsStore.SwitchingAgainChangesNothing` | src/sysDetector-ebpf/fs/fs.c:291-309 | Repeating a start or stop leaves the loaded list as it is. |
| `FsWorker.LoadIntoIsLoad` | src/sysDetector-ebpf/fs/fs.c:102-149 | Whatever the config array held, after loading in place the cells in use are exactly the configs of the directory's files in order. |
| `FsWorker.Worker.ParseConfigFile` | src/sysDetector-ebpf/fs/fs.c:102-133 | The next cell is overwritten by the parsed file and counted when it has a name and a path; a full array is left alone. |
| `FsWorker.Worker.LoadConfigs` | src/sysDetector-ebpf/fs/fs.c:135-149 | The array ends as loading the whole directory in place leaves it. |
| `FsWorker.Worker.WriteConfigFile` | src/sysDetector-ebpf/fs/fs.c:156-177 | The first visible file with the config's id is rewritten as the printed config; nothing else changes. |
| `FsWatch.PackIsExactUpTo32767` | src/sysDetector-ebpf/fs/fs.c:250 | The config index always decodes; the watch descriptor decodes if and only if it is at most 32767. |
| `FsWatch.RebuiltListsTheEnabled` | src/sysDetector-ebpf/fs/fs.c:237-256 | The rebuilt table lists in config order exactly the enabled configs whose watch was added, none twice and none dropped. |
| `FsWorker.Worker.RebuildWatches` | src/sysDetector-ebpf/fs/fs.c:237-256 | The worker is ready afterwards exactly if it was or inotify can be initialised; then all old descriptors are removed and the table is the one rebuilt from the configs in use, and else nothing changes. The guard against a full table never binds. |
| `FsEvents.ReadRecord` | src/sysDetector-ebpf/fs/fs.c:270-280 | The header at a position of the buffer gives the record encoded there, and the position of the next one. |
| `FsEvents.EventGoesToFirstConfig` | src/sysDetector-ebpf/fs/fs.c:271-273 | Right after a rebuild, whatever the descriptors, an event belongs to the first enabled config of whose descriptor the table keeps that of the event, and to none if there is none. |
| `FsEvents.AttributionIsExact` | src/sysDetector-ebpf/fs/fs.c:250-273 | Every event is attributed to the first enabled config whose watch has its very descriptor, if and only if no watch has a descriptor above 32767. |
| `FsEvents.LargeDescriptorsAreLost` | src/sysDetector-ebpf/fs/fs.c:272 | An event with a descriptor above 32767 is attributed to no config. |
| `FsEvents.HasIs` | src/sysDetector-ebpf/fs/fs.c:223-229 | A mask has a bit exactly when it is set between the bits above and below it. |
| `FsEvents.RingKeepsTheLast` | src/sysDetector-ebpf/fs/fs.c:204-211 | In a ring of any size one more row takes the first free place or that of the oldest: the ring holds the last rows, oldest first. |
| `FsWorker.Worker.RecordEvent` | src/sysDetector-ebpf/fs/fs.c:204-221 | The rows in the ring end as the last 128 of the old ones and the new one; the alarm runs exactly when it is set and not "true". |
| `FsWorker.Worker.Walk` | src/sysDetector-ebpf/fs/fs.c:269-281 | The walk over a buffer of whole records ends, and handles each record once and in order. |
| `FsWorker.Worker.MonitorOnce` | src/sysDetector-ebpf/fs/fs.c:258-283 | All records of all buffers read are handled once and in order; nothing is before inotify is initialised. |
| `FsWorker.Worker.ListEvents` | src/sysDetector-ebpf/fs/fs.c:190-202 | The loop writes the rows of the ring, oldest first. |
| `FsWorker.Worker.HandleCommand` | src/sysDetector-ebpf/fs/fs.c:285-318 | The whole state ends as the specification of the command says, with exactly one response. |
| `FsWorker.Worker.constructor` | src/sysDetector-ebpf/fs/fs.c:320-324 | The worker enters its loop with the configs loaded, ready exactly if inotify can be initialised, and then with the watches rebuilt from these configs. |
| `FsRuns.ListedEventsAreTheLast` | src/sysDetector-ebpf/fs/fs.c:190-221 | After any run, `list events` writes exactly the last 128 of all matched events since the start, oldest first. |
| `FsRuns.EventsAreAttributed` | src/sysDetector-ebpf/fs/fs.c:258-283 | In every reachable state an event is attributed to the first enabled config on disk of whose descriptor at the last rebuild the watch table keeps that of the event, and to none if there is none. |
| `FsRuns.RunStaysSynced` | src/sysDetector-ebpf/fs/fs.c:285-318 | In every reachable state the configs in use are those in the directory, and the watch table is the one rebuilt from exactly these. |
| `FsRuns.SwitchEndToEnd` | src/sysDetector-ebpf/fs/fs.c:291-309 | From any reachable state with distinct ids, starting or stopping a listed id by the text a client sends succeeds and changes only this config in the reloaded list; the worker is ready afterwards exactly if it was or inotify can now be initialised, and then exactly the old watches are removed and the table is the one rebuilt from that list. |
| `FsRuns.UnknownEndToEnd` | src/sysDetector-ebpf/fs/fs.c:291-309 | Starting or stopping an id that no loaded config has, by the text a client sends, is answered with 1 and changes neither directory, configs, watches nor readiness. |
| `FsRuns.WordsDecide` | src/sysDetector-ebpf/fs/fs.c:285-318 | For every command: a start or stop of an id on disk is carried out as above; any other leaves directory, configs and watches alone, and is answered with 0 exactly if it is a list of a known scope, and with 1 otherwise. |
| `FsRuns.StartIsWatched` | src/sysDetector-ebpf/fs/fs.c:320-323 | `main` enters its loop ready exactly if inotify could be initialised, with the configs of the directory and then the watches rebuilt from them, and else with none. |
| `FsRuns.ReadyExactly` | src/sysDetector-ebpf/fs/fs.c:231-239 | Over any run the worker is ready if and only if inotify could be initialised at the start or at some start or stop of a config on disk. |
| `FsRuns.EventIsRecorded` | src/sysDetector-ebpf/fs/fs.c:258-283 | In every reachable ready state an event of a watched config adds one row with the config's id and name, the operation, and its path followed by the name in the event, of which rows the last 128 are kept, and runs the config's alarm unless this is empty or "true"; any other event changes nothing. |
| `FsRuns.RoundsOfEvents` | src/sysDetector-ebpf/fs/fs.c:258-283 | A round of events has the effect of its events one after the other, and none before inotify is in place. |
| `FsRuns.AlarmAfterSwitch` | src/sysDetector-ebpf/fs/fs.c:168-170 | After a start or stop has rewritten a config its events run the same alarm as before, or none as before, if and only if the alarm did not end in a space. |
| `FsRuns.SwitchesAreRemembered` | src/sysDetector-ebpf/fs/fs.c:135-177 | Over any run with distinct ids the list keeps length and order; a config never switched is unchanged, any other is as printing leaves it with the switch of the last start or stop of it. |
| `FsRuns.EveryCommandIsAnswered` | src/sysDetector-ebpf/fs/fs.c:285-318 | Over any run every command is answered exactly once. |
| `FsRuns.ListedIdIsRead` | src/sysDetector-ebpf/fs/fs.c:293 | An id that a listing printed, sent back with an option, is cut and read as the same id. |
| `Decimals.AtoiOfPrinted` | src/sysDetector-ebpf/fs/fs.c:293 | `atoi` reads back every printed 32-bit number. |
| `Decimals.AtoiReads` | src/sysDetector-ebpf/fs/fs.c:293 | Of any text `atoi` reads the sign or none and the digits behind leading space, whatever follows, as a 64-bit `long` holds them, cut to 32 bits. |

## Left out

- Real I/O: queues, sockets, inotify, `popen` and files are inputs or sequences; failing opens, reads and writes are not modelled, and so neither are the two responses that `proc.c:364-385` sends when the output file cannot be opened.
- Messages of exactly 1024 bytes, worker restarts that unlink queues, clocks that go backwards, and text that is not ASCII where Rust trims Unicode space.
- The process worker's config parser (`proc.c:204-271`) and the switches a config file gives; configs are an input of `ProcWorker.Worker`.
- `detect_suspicious_exec` (`proc.c:532-565`): substring tests that write log lines only. Other log lines than burst lines, and the printed layout of listings, are left out too; a listing is a sequence of rows.
- JSON, argument parsing and the accept loop of the server: library code. `RpcProtocol` starts where the mutex is taken.
- A switch changing between the two enabled checks of one exec event: `ProcRuns` lets the monitor thread and the commands write between events only.
- A directory changed by others while the file worker runs: `FsRuns` lets only the worker write it, and inode numbers are taken as already cast to `int`.
- Removal of watches by the kernel: `inotify_rm_watch` is recorded, and its effect on descriptors is part of the inputs.
- Reads of user memory behind the terminating null pointer of `argv` in `handle_execve`: the six pointers found are an input.
- ShortLived.EightExitsAreReported: asks that the counter is not evicted between the exits; `ReportingIsExact` needs no such hypothesis and gives the exact bounds.
- CommandCodec.SendCommand: asks that the text is not exactly 1024 bytes long.
- ProcRefinement.TrackedIsSubMap: asks that forks name pids the unbounded map does not hold. The kernel program reports forks by thread id and exits by thread-group id (`proc.bpf.c:85`, `proc.bpf.c:100`), so that the id of a thread is never freed by its own exit and can recur; `RunAgreesExactly` gives the exact condition for every run.
- FsRuns.SwitchesAreRemembered: asks that visible files have distinct ids; hard links of one file share their inode number.
