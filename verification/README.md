# xdccget core, modelled in Dafny

xdccget downloads files offered over DCC by IRC bots. This project models its
decision logic, all of which sits in `xdccget.c`, as a functional state machine:

- An immutable `State` (module `Model`) holds:
  - the configuration;
  - `SENDED_FLAG` and `OUTPUT_FLAG`;
  - whether the alarm is armed;
  - the download registry (`downloadContext`, `numActiveDownloads`, `finishedDownloads`);
  - `curDownload` and `lastDownload` as slot indices;
  - an abstract file system (a map from path to size);
  - the quit and exit requests.
- Each libircclient callback is one pure handler returning `Step(state, actions)`. The actions are what the C code does to its collaborators, in order:
  - IRC messages, joins and mode changes;
  - DCC accept and resume;
  - alarm(0);
  - progress output;
  - closing file handles;
  - quitting;
  - spawning a checksum thread;
  - `exit(EXIT_FAILURE)`.
- `Orchestrator.Handle` dispatches the callback table of `initCallbacks`. `Orchestrator.Run` folds it over a sequence of events. The run-level lemmas state what the program promises across events.

Modules, in dependency order:

- `Common`: `Option`.
- `Text`: `strstr` as `Find`, and `sdstrim` as `Trim`.
- `Checksum`: `extractMD5` and `checkMD5ChecksumNotice`.
- `Login`: the split of the login command, and `isPasswordAccepted`.
- `Model`: the state, the invariant `Valid`, the handle-closing loop of `doCleanUp`, and `exitPgm`.
- `Sequencer`: `event_connect`, `event_umode`, `event_join`, `event_mode` and `send_xdcc_requests`.
- `Resolver`: `recvFileRequest`.
- `Transfer`: `callback_dcc_recv_file` and `callback_dcc_resume_file`.
- `Progress`: `output_handler`, `output_all_progesses` and `print_output_callback`.
- `Orchestrator`: `event_notice`, the dispatch, runs of events, and the lemmas over runs.

`Valid` is kept by every handler. It says:

- the registry never outgrows the configured downloads;
- `finishedDownloads` equals the number of slots closed on completion, so finished ≤ active ≤ numDownloads;
- a closed slot is complete;
- `curDownload` is the newest slot;
- `lastDownload`, once set, names a registered slot.

The environment's obligations are stated in `Orchestrator.Enabled`:

- an offer arrives only while a registry slot is free;
- resume acknowledgements and accepted chunks arrive only for live transfers;
- a notice that is inspected extends past the fixed copy offset.

Where the code and its description disagree, the model follows the code:

- **alarm(0) on any completion.** alarm(0) runs on every completion, not only when the last transfer ends. The progress timer then stays off for good (`Orchestrator.NoReportAfterTimerStopped`).
- **Quit check.** The quit test compares `finishedDownloads` with `numActiveDownloads`, not with the number of configured downloads (`Orchestrator.QuitBeforeLaterOffers`).
- **"Already downloaded".** The record is registered and `curDownload` is set before the fatal exit.
- **Larger existing file.** An existing file larger than the offer is resumed at its own size.
- **Zero-size offer.** A zero-size offer, or a resume acknowledged at the full size, is complete from the start. `doCleanUp` therefore leaves its handle open (`Model.CleanUpClosesOnlyOpen`).

## Model

| member | source | states |
|---|---|---|
| Text.Find | xdccget.c:157-164 | strstr: the index returned is the leftmost occurrence of the pattern, and there is none exactly when the pattern does not occur |
| Text.Trim | xdccget.c:291 | sdstrim: the result is no longer than the input and starts and ends outside the trimmed set |
| Text.TrimUnique | xdccget.c:291 | trimming is determined by its result: any string that is trimmable characters, then a core with non-trimmable ends, then trimmable characters, trims to exactly that core |
| Text.TrimIdempotent | xdccget.c:291 | trimming the stored, already trimmed login command again changes nothing |
| Checksum.ExtractMD5 | xdccget.c:152-172 | nothing is found exactly when neither "md5sum" nor "MD5" occurs. If "md5sum" occurs, the hash is the at most 32 characters from 8 past its first occurrence. Only otherwise, it is the at most 32 characters from 4 past the first "MD5". |
| Checksum.LongMarkerNotice | xdccget.c:157-161 | a notice "md5sum: h" yields the first 32 characters of h (all of h if shorter) |
| Checksum.CheckNotice | xdccget.c:174-194 | a task is produced exactly when the event is NOTICE, has exactly 2 params, lastDownload is set and a marker occurs. Its hash is the extracted one, and its path is lastDownload's path. |
| Login.SplitLogin | xdccget.c:290-312 | a split exists exactly when the trimmed command has at least 9 characters. The recipient is its first 9 characters, and recipient followed by body is the trimmed command. |
| Login.SplitLoginStable | xdccget.c:291 | splitting the stored trimmed command gives the same split as the original command |
| Login.IsPasswordAccepted | xdccget.c:240-256 | true exactly when the message contains one of the three acceptance phrases |
| Model.Init | xdccget.c:22-26 | the starting state (no registry, no counters, no current or last download, flags clear) satisfies the invariant |
| Model.FinishedBounded | xdccget.c:22-23 | in every valid state, finishedDownloads ≤ numActiveDownloads ≤ numDownloads |
| Model.CleanUp | xdccget.c:45-55 | the slots doCleanUp closes are exactly the registered slots whose received size differs from the expected size, in increasing slot order |
| Model.CleanUpClosesOnlyOpen | xdccget.c:45-58 | no handle is closed twice: every slot cleanup closes still has an open handle. The open handles cleanup skips are exactly those of complete slots. |
| Model.Fatal | xdccget.c:71-74 | exitPgm(EXIT_FAILURE): the cleanup's closes and then the exit, with only the exit request changed in the state |
| Model.Accept | xdccget.c:494-498 | irc_dcc_accept is issued for the slot. When it fails, the program exits through the fatal path. |
| Sequencer.JoinAll | xdccget.c:214-219 | one join per configured channel, in order |
| Sequencer.RequestAll | xdccget.c:224-234 | one "/msg bot command" per configured download, in order |
| Sequencer.SendRequests | xdccget.c:221-238 | while SENDED_FLAG is clear, sends the whole batch and sets the flag. Once it is set, sends nothing. |
| Sequencer.OnConnected | xdccget.c:315-329 | without a login command, joins all channels. With one, stores it trimmed and sends it split at 9 characters if long enough, and sends nothing otherwise (not fatal). |
| Sequencer.OnUserMode | xdccget.c:272-278 | "+r" with a login command joins all channels; every other case does nothing |
| Sequencer.OnJoined | xdccget.c:281-288 | always asks for "+i" first; without a login command, then sends the requests |
| Sequencer.OnChannelMode | xdccget.c:263-270 | a second param "+v" with a login command sends the requests; every other case does nothing |
| Resolver.JoinPath | xdccget.c:435-456 | the path is the directory, then a '/' only when the directory does not already end in one, then the filename |
| Resolver.JoinPathInjective | xdccget.c:456 | different filenames in the same directory give different complete paths |
| Resolver.Resolve | xdccget.c:471-493 | a missing file is a fresh accept. An existing file of the offered size is "already downloaded". An empty one is accepted from 0. Any other is resumed at its own size. The four cases are exclusive and exhaustive. |
| Resolver.Register | xdccget.c:461-466 | the new record goes into the next slot, numActiveDownloads grows by one, and curDownload becomes that slot |
| Resolver.OnOffer | xdccget.c:419-502 | a filename with '/' or '\\' exits before anything is registered. Otherwise the offer is registered in the next slot and then resolved: fatal when already downloaded; accept from 0 (fatal when the accept fails); or resume at the existing size. Only transport actions are emitted. |
| Resolver.AdmitComplete | xdccget.c:476-479 | an existing file of the offered size registers the record, then exits |
| Resolver.AdmitResume | xdccget.c:482-487 | a non-empty partial file asks the bot to resume at the file's size |
| Resolver.AdmitFromZero | xdccget.c:482-499 | a missing file is created empty, and a missing or empty file is accepted from offset 0 |
| Transfer.OnChunk | xdccget.c:352-397 | a chunk without data or context, of length 0, or with an error status changes nothing. Otherwise the received size grows by exactly the length. Only when it equals the expected size: alarm(0), then output, then close, finished+1, lastDownload := curDownload, and quit exactly when verification is off and finished == active. |
| Transfer.Grow | xdccget.c:376-377 | a chunk short of completion only adds its length to the slot and to the file |
| Transfer.Finish | xdccget.c:379-396 | the completing chunk closes the slot, counts it as finished and quits when it was the last active one (verification off) |
| Transfer.OnResumeAccepted | xdccget.c:399-417 | the slot's received size becomes the acknowledged offset, then the transfer is accepted. Failure is fatal. |
| Progress.ProgressEntries | xdccget.c:92-98 | one progress entry per slot in slot order, each followed by a newline when more than one is active; the entries hold only progress lines and newlines, naming slots below the active count in strictly increasing order |
| Progress.ProgressReport | xdccget.c:85-107 | the waiting line when nothing is active. A single entry and a carriage return when one is active. Otherwise entry and newline for each slot in order. |
| Progress.ReportCoversEverySlot | xdccget.c:88-98 | a report names every active slot, no other slot, and the slots in strictly increasing order, so each active slot has exactly one progress entry |
| Progress.OnTimer | xdccget.c:109-112 | an alarm tick sets OUTPUT_FLAG while the alarm is armed, and changes nothing once it has been cancelled |
| Progress.OnKeepAlive | xdccget.c:504-509 | reports only when OUTPUT_FLAG is set, then clears it |
| Orchestrator.OnNotice | xdccget.c:258-261 | a notice spawns at most one checksum thread: exactly when the notice check finds a hash, with that hash and lastDownload's path. The state is unchanged. |
| Orchestrator.Handle | xdccget.c:511-525 | every callback keeps the state invariant, and after an exit no callback has any effect |
| Orchestrator.HandleSequence | xdccget.c:514-522 | the connect, join, user-mode and channel-mode callbacks keep the state invariant |
| Orchestrator.HandleOutput | xdccget.c:520-523 | the notice callback, the alarm tick and the keep-alive callback keep the state invariant |
| Orchestrator.HandleTransfer | xdccget.c:516 | an offer, an accepted resume and a received chunk keep the state invariant when the event is enabled |
| Orchestrator.Run | xdccget.c:511-525 | any admissible sequence of callbacks keeps the state invariant |
| Orchestrator.CountersBounded | xdccget.c:389-392 | after any run, finishedDownloads ≤ numActiveDownloads ≤ numDownloads |
| Orchestrator.HandleFacts | xdccget.c:221-238 | no callback changes the configured downloads or clears SENDED_FLAG. Request messages are emitted as the whole batch, exactly when the flag goes from clear to set. |
| Orchestrator.RequestTrigger | xdccget.c:263-288 | only a join without a login command, or a "+v" mode with one, can set SENDED_FLAG |
| Orchestrator.RequestsSentOnce | xdccget.c:221-238 | over any run, the requests are sent at most once: one message per configured download if SENDED_FLAG got set, none otherwise, however many joins or "+v" modes arrive |
| Orchestrator.ChunksCompleteExactlyOnce | xdccget.c:376-392 | chunks that add up exactly to the missing size leave the slot complete and closed. finishedDownloads grows by exactly one, lastDownload becomes curDownload, and "Download completed!" is shown exactly once. |
| Orchestrator.ChunksWithoutExactHitNeverComplete | xdccget.c:379 | when no prefix of the chunks hits the expected size exactly (for instance one overshoots), the slot stays open, the received size is the sum, and no completion is signalled |
| Orchestrator.NoReportAfterTimerStopped | xdccget.c:380 | once alarm(0) has run and OUTPUT_FLAG is clear, no later callback prints a progress report or re-arms the timer |
| Orchestrator.ResumeFromExistingSize | xdccget.c:471-487 | an offer for a partial file, acknowledged at the file's size, asks to resume there, then accepts. The slot counts the file's size as received. |
| Orchestrator.OneReportPerTick | xdccget.c:504-509 | while the alarm is armed, a tick followed by one or more keep-alive callbacks prints exactly one report of the current registry and leaves the flag clear |
| Orchestrator.KeepAlivesAreSilent | xdccget.c:505 | with OUTPUT_FLAG clear, keep-alive callbacks change nothing and print nothing |
| Orchestrator.QuitBeforeLaterOffers | xdccget.c:392 | with verification off, completing every transfer offered so far quits, even while configured downloads remain unoffered |

## Left out

- libircclient (`irc_cmd_msg`, `irc_cmd_join`, `irc_cmd_user_mode`, `irc_dcc_accept`, `irc_dcc_resume`, `irc_cmd_quit`, `irc_errno`): each call is an emitted action.
  - The outcome of `irc_dcc_accept` is an event parameter.
  - A failed `irc_cmd_msg` is only logged in the C code, so it is not modelled.
- The checksum thread and the MD5 computation (`checksum_verification_thread`, `startChecksumThread`): concurrency and a foreign hash library. Spawning is the `SpawnChecksum` action.
- Signals: `alarm` becomes the `timerArmed` flag, and `output_handler` becomes the `TimerFired` event. `interrupt_handler`, `init_signal` and the SIGINT path are not modelled.
- Real file I/O (`Open`, `Write`, `Seek`, `Close`, `get_file_size`, `file_exists`) is the path → size map plus `CloseFile` actions. `mkdir`, whose failure is only logged, is not modelled.
- `outputProgress`, `dump_event`, `logprintf` and `printf` text: output is abstract actions, not formatted text.
- Configuration and argument parsing, nick generation and `main` are not part of this model; helper.c, file.c and config.c are not part of this model.
- `sds` strings are Dafny strings. Embedded NUL characters are not modelled: C stops reading at the first NUL, and the model reads the whole string.
- Integer widths: sizes, offsets and the uint32 counters are unbounded naturals, so wrap-around is not modelled.
- Windows builds are not modelled: `getPathSeperator` is taken as '/'.
- `doCleanUp` frees memory and destroys the session. Only its handle-closing loop is modelled. The registry is left as it is, because the process then ends.
- `Checksum.ExtractMD5` requires that the text extend past the fixed offset after the first marker. Reading past the end of the string with `strncpy` is undefined in C.
- `Resolver.OnOffer` requires a free registry slot. The C code writes `downloadContext[numActiveDownloads]` without a bounds check.
- `Text.Trim` states the result's ends and length. Its characterisation as the unique trimmed core is the separate lemma `Text.TrimUnique`.
