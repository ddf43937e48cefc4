/** The orchestrator's state: the configuration it was started with, the
    download registry (downloadContext, numActiveDownloads, finishedDownloads),
    the curDownload/lastDownload references, the SENDED and OUTPUT flags, the
    alarm timer, an abstract file system, and the quit/exit requests. Every
    handler returns the new state together with the actions it performed on its
    collaborators (IRC session, DCC transport, terminal, checksum threads). */
module Model {
  import opened Common

  /** One configured request: "/msg <botNick> <xdccCommand>". */
  datatype Download = Download(botNick: string, xdccCommand: string)

  datatype Config = Config(
    login: Option<string>,       // login_command, None when not configured
    channels: seq<string>,       // channelsToJoin
    downloads: seq<Download>,    // dccDownloadArray; its length is numDownloads
    targetDir: string,
    verifyChecksum: bool)        // VERIFY_CHECKSUM_FLAG

  /** A registry slot: the download progress (completePath, completeFileSize,
      sizeRcvd) and whether the slot's file handle is still open. */
  datatype Record = Record(path: string, expectedSize: nat, received: nat, open: bool)

  /** The sole completion signal: the received size equals the expected one. */
  predicate Complete(rec: Record) {
    rec.received == rec.expectedSize
  }

  datatype State = State(
    cfg: Config,
    requestsSent: bool,          // SENDED_FLAG
    outputPending: bool,         // OUTPUT_FLAG
    timerArmed: bool,            // whether an alarm is pending
    registry: seq<Record>,       // downloadContext[0 .. numActiveDownloads)
    finished: nat,               // finishedDownloads
    cur: Option<nat>,            // curDownload, as a slot index
    last: Option<nat>,           // lastDownload, as a slot index
    files: map<string, nat>,     // existing files and their sizes
    quitRequested: bool,         // irc_cmd_quit was called
    exited: bool)                // exitPgm(EXIT_FAILURE) was called

  /** What a handler does to the outside world, in order. */
  datatype Action =
    | SendLogin(recipient: string, body: string)         // irc_cmd_msg with the login command
    | JoinChannel(channel: string)                       // irc_cmd_join
    | SetUserMode(mode: string)                          // irc_cmd_user_mode
    | XdccRequest(botNick: string, command: string)      // irc_cmd_msg with a request
    | AcceptOffer(offer: nat, slot: nat)                 // irc_dcc_accept
    | ResumeOffer(offer: nat, slot: nat, nick: string, offset: nat) // irc_dcc_resume
    | StopTimer                                          // alarm(0)
    | ShowProgress(slot: nat)                            // outputProgress
    | ShowCompleted                                      // "Download completed!"
    | CloseFile(slot: nat)                               // Close(context->fd)
    | QuitSession                                        // irc_cmd_quit
    | SpawnChecksum(expectedHash: string, path: string)  // startChecksumThread
    | ShowWaiting                                        // "Please wait until the download is started!"
    | NewLine                                            // "\n"
    | CarriageReturn                                     // "\r"
    | ExitFailure                                        // exit(EXIT_FAILURE)

  datatype Step = Step(state: State, actions: seq<Action>)

  /** Actions that only concern the DCC transport, the file handles or the
      process itself. */
  predicate IsTransferAction(a: Action) {
    a.AcceptOffer? || a.ResumeOffer? || a.CloseFile? || a.ExitFailure?
  }

  /** Number of registry slots whose handle has been closed on completion. */
  function ClosedCount(rs: seq<Record>): nat {
    if |rs| == 0 then 0
    else ClosedCount(rs[..|rs| - 1]) + (if rs[|rs| - 1].open then 0 else 1)
  }

  /** The invariant every reachable state keeps:
      - the registry never outgrows the configured downloads (the array size);
      - finishedDownloads counts exactly the slots closed on completion, so
        finished <= active <= numDownloads;
      - a slot's handle is closed only once it is complete;
      - curDownload is the most recently registered slot;
      - lastDownload, once set, names a registered slot. */
  predicate Valid(st: State) {
    && |st.registry| <= |st.cfg.downloads|
    && st.finished == ClosedCount(st.registry)
    && (forall i :: 0 <= i < |st.registry| && !st.registry[i].open ==> Complete(st.registry[i]))
    && st.cur == (if |st.registry| == 0 then None else Some(|st.registry| - 1))
    && (st.last.Some? ==> st.last.value < |st.registry|)
  }

  /** The state at irc_run: nothing requested, nothing registered, alarm(1) armed. */
  function Init(cfg: Config, files: map<string, nat>): (st: State)
    ensures Valid(st)
    ensures st.finished == 0 && |st.registry| == 0 && !st.requestsSent
  {
    State(cfg, false, false, true, [], 0, None, None, files, false, false)
  }

  lemma {:induction false} ClosedCountBound(rs: seq<Record>)
    ensures ClosedCount(rs) <= |rs|
  {
    if |rs| > 0 {
      ClosedCountBound(rs[..|rs| - 1]);
    }
  }

  /** The counter relation finished <= active <= numDownloads. */
  lemma FinishedBounded(st: State)
    requires Valid(st)
    ensures st.finished <= |st.registry| <= |st.cfg.downloads|
  {
    ClosedCountBound(st.registry);
  }

  lemma ClosedCountAppendOpen(rs: seq<Record>, rec: Record)
    requires rec.open
    ensures ClosedCount(rs + [rec]) == ClosedCount(rs)
  {
    assert (rs + [rec])[..|rs|] == rs;
  }

  /** Replacing slot `i` by a record with handle state `open` changes the count
      by the change in that one slot. */
  lemma {:induction false} ClosedCountUpdate(rs: seq<Record>, i: nat, rec: Record)
    requires i < |rs|
    ensures ClosedCount(rs[i := rec]) + (if rs[i].open then 0 else 1)
         == ClosedCount(rs) + (if rec.open then 0 else 1)
    decreases |rs|
  {
    var n := |rs| - 1;
    if i < n {
      assert rs[i := rec][..n] == rs[..n][i := rec];
      ClosedCountUpdate(rs[..n], i, rec);
    } else {
      assert rs[i := rec][..n] == rs[..n];
    }
  }

  /** The handle-closing loop of doCleanUp, from slot `i` on: the slots whose
      transfer has not completed, each once and in slot order. */
  function CleanUpFrom(rs: seq<Record>, i: nat): (slots: seq<nat>)
    requires i <= |rs|
    ensures forall k :: k in slots <==> i <= k < |rs| && !Complete(rs[k])
    ensures forall a, b :: 0 <= a < b < |slots| ==> slots[a] < slots[b]
    decreases |rs| - i
  {
    if i == |rs| then []
    else
      var rest := CleanUpFrom(rs, i + 1);
      assert forall b :: 0 <= b < |rest| ==> rest[b] > i by {
        forall b | 0 <= b < |rest|
          ensures rest[b] > i
        {
          assert rest[b] in rest;
        }
      }
      (if Complete(rs[i]) then [] else [i]) + rest
  }

  function CleanUp(rs: seq<Record>): (slots: seq<nat>)
    ensures forall k :: k in slots <==> 0 <= k < |rs| && !Complete(rs[k])
    ensures forall a, b :: 0 <= a < b < |slots| ==> slots[a] < slots[b]
  {
    CleanUpFrom(rs, 0)
  }

  /** No handle is closed twice: in a valid state every slot the cleanup closes
      still has its handle open. The handles cleanup leaves open are exactly the
      open ones of complete slots (an offer of size 0, or a resume acknowledged
      at the full size). */
  lemma CleanUpClosesOnlyOpen(st: State)
    requires Valid(st)
    ensures forall k :: k in CleanUp(st.registry) ==> st.registry[k].open
    ensures forall k :: 0 <= k < |st.registry| && st.registry[k].open && k !in CleanUp(st.registry)
              ==> Complete(st.registry[k])
  {
  }

  function CloseActions(slots: seq<nat>): (acts: seq<Action>)
    ensures |acts| == |slots|
    ensures forall k :: 0 <= k < |slots| ==> acts[k] == CloseFile(slots[k])
  {
    seq(|slots|, k requires 0 <= k < |slots| => CloseFile(slots[k]))
  }

  /** exitPgm(EXIT_FAILURE): doCleanUp closes the unfinished handles, then the
      process ends; no later event is handled. */
  function Fatal(st: State): (r: Step)
    requires Valid(st)
    ensures Valid(r.state) && r.state.exited
    ensures r.state == st.(exited := true)
    ensures r.actions == CloseActions(CleanUp(st.registry)) + [ExitFailure]
    ensures forall k :: 0 <= k < |r.actions| ==> IsTransferAction(r.actions[k])
  {
    Step(st.(exited := true), CloseActions(CleanUp(st.registry)) + [ExitFailure])
  }

  /** irc_dcc_accept for slot `slot`: a failure to accept is fatal. */
  function Accept(st: State, offer: nat, slot: nat, acceptOk: bool): (r: Step)
    requires Valid(st)
    ensures Valid(r.state)
    ensures |r.actions| > 0 && r.actions[0] == AcceptOffer(offer, slot)
    ensures acceptOk ==> r == Step(st, [AcceptOffer(offer, slot)])
    ensures !acceptOk ==> r.state == st.(exited := true) && r.actions[|r.actions| - 1] == ExitFailure
    ensures forall k :: 0 <= k < |r.actions| ==> IsTransferAction(r.actions[k])
  {
    if acceptOk then Step(st, [AcceptOffer(offer, slot)])
    else
      var f := Fatal(st);
      Step(f.state, [AcceptOffer(offer, slot)] + f.actions)
  }
}
