/** The orchestrator: the callback table of initCallbacks as a tagged event,
    one handler per event, runs of events, and the properties that span
    several events (requests sent once, exact completion, the progress timer
    that stops for good). */
module Orchestrator {
  import opened Common
  import opened Text
  import opened Checksum
  import opened Model
  import opened Sequencer
  import opened Resolver
  import opened Transfer
  import opened Progress

  datatype Event =
    | Connected                                           // event_connect
    | UserModeChanged(mode: string)                       // event_umode, its first parameter
    | Joined                                              // event_join
    | ChannelModeChanged(params: seq<string>)             // event_mode
    | NoticeReceived(name: string, params: seq<string>)   // event_notice
    | FileOffered(offer: nat, nick: string, filename: string, size: nat, acceptOk: bool)
                                                          // event_dcc_send_req; acceptOk is irc_dcc_accept's verdict
    | ResumeAccepted(offer: nat, slot: nat, offset: nat, acceptOk: bool)
                                                          // callback_dcc_resume_file
    | ChunkReceived(context: Option<nat>, hasData: bool, length: nat, status: int)
                                                          // callback_dcc_recv_file
    | TimerFired                                          // SIGALRM, output_handler
    | KeepAlive                                           // keep_alive_callback, print_output_callback

  /** event_notice: spawns one checksum task for the path of lastDownload when
      checkMD5ChecksumNotice finds a hash, and nothing otherwise. */
  function OnNotice(st: State, name: string, params: seq<string>): (r: Step)
    requires Valid(st)
    requires InspectsNotice(name, params, st.last.Some?) ==> NoticeReadable(params[1])
    ensures r.state == st
    ensures |r.actions| <= 1
    ensures |r.actions| == 1 <==> (InspectsNotice(name, params, st.last.Some?)
                                   && (Contains(params[1], LongMarker) || Contains(params[1], ShortMarker)))
    ensures |r.actions| == 1 ==>
              r.actions[0] == SpawnChecksum(ExtractMD5(params[1]).value, st.registry[st.last.value].path)
  {
    var lastPath := if st.last.Some? then Some(st.registry[st.last.value].path) else None;
    match CheckNotice(name, params, lastPath)
    case None => Step(st, [])
    case Some(task) => Step(st, [SpawnChecksum(task.expectedHash, task.path)])
  }

  /** What the environment guarantees before delivering an event: a free
      registry slot for every offer, a live transfer for every resume
      acknowledgement and every accepted chunk, and a notice long enough for
      the fixed copy offset. After an exit nothing is handled. */
  predicate Enabled(st: State, ev: Event)
    requires Valid(st)
  {
    || st.exited
    || match ev
       case NoticeReceived(name, params) =>
         InspectsNotice(name, params, st.last.Some?) ==> NoticeReadable(params[1])
       case FileOffered(_, _, _, _, _) => |st.registry| < |st.cfg.downloads|
       case ResumeAccepted(_, slot, _, _) => slot < |st.registry| && st.registry[slot].open
       case ChunkReceived(slot, hasData, length, status) =>
         ChunkPasses(slot, hasData, length, status) ==>
           slot.value < |st.registry| && st.registry[slot.value].open
       case _ => true
  }

  /** The events that concern one DCC transfer. */
  predicate IsTransferEvent(ev: Event) {
    ev.FileOffered? || ev.ResumeAccepted? || ev.ChunkReceived?
  }

  /** The events of the login and request sequence. */
  predicate IsSequenceEvent(ev: Event) {
    ev.Connected? || ev.UserModeChanged? || ev.Joined? || ev.ChannelModeChanged?
  }

  /** Dispatches one event; every handler keeps the state invariant. */
  function Handle(st: State, ev: Event): (r: Step)
    requires Valid(st) && Enabled(st, ev)
    ensures Valid(r.state)
    ensures st.exited ==> r == Step(st, [])
  {
    if st.exited then Step(st, [])
    else if IsTransferEvent(ev) then HandleTransfer(st, ev)
    else if IsSequenceEvent(ev) then HandleSequence(st, ev)
    else HandleOutput(st, ev)
  }

  /** The login and request sequence. */
  function HandleSequence(st: State, ev: Event): (r: Step)
    requires Valid(st) && IsSequenceEvent(ev)
    ensures Valid(r.state)
  {
    match ev
    case Connected => OnConnected(st)
    case UserModeChanged(mode) => OnUserMode(st, mode)
    case Joined => OnJoined(st)
    case ChannelModeChanged(params) => OnChannelMode(st, params)
  }

  /** The notices, the alarm tick and the keep-alive callback. */
  function HandleOutput(st: State, ev: Event): (r: Step)
    requires Valid(st) && !st.exited && Enabled(st, ev)
    requires !IsTransferEvent(ev) && !IsSequenceEvent(ev)
    ensures Valid(r.state)
  {
    match ev
    case NoticeReceived(name, params) => OnNotice(st, name, params)
    case TimerFired => OnTimer(st)
    case KeepAlive => OnKeepAlive(st)
  }

  /** The DCC callbacks: an offer, a resume acknowledgement, a received chunk. */
  function HandleTransfer(st: State, ev: Event): (r: Step)
    requires Valid(st) && !st.exited && Enabled(st, ev) && IsTransferEvent(ev)
    ensures Valid(r.state)
  {
    match ev
    case FileOffered(offer, nick, filename, size, acceptOk) => OnOffer(st, offer, nick, filename, size, acceptOk)
    case ResumeAccepted(offer, slot, offset, acceptOk) => OnResumeAccepted(st, offer, slot, offset, acceptOk)
    case ChunkReceived(context, hasData, length, status) => OnChunk(st, context, hasData, length, status)
  }

  /** Every event of `evs` is enabled in the state reached before it. */
  predicate Admissible(st: State, evs: seq<Event>)
    requires Valid(st)
    decreases |evs|
  {
    |evs| == 0 || (Enabled(st, evs[0]) && Admissible(Handle(st, evs[0]).state, evs[1..]))
  }

  /** Handles the events one after the other, collecting the actions in order. */
  function Run(st: State, evs: seq<Event>): (r: Step)
    requires Valid(st) && Admissible(st, evs)
    ensures Valid(r.state)
    decreases |evs|
  {
    if |evs| == 0 then Step(st, [])
    else
      var first := Handle(st, evs[0]);
      var rest := Run(first.state, evs[1..]);
      Step(rest.state, first.actions + rest.actions)
  }

  /** The counter relation finished <= active <= numDownloads holds after any run. */
  lemma CountersBounded(st: State, evs: seq<Event>)
    requires Valid(st) && Admissible(st, evs)
    ensures Run(st, evs).state.finished <= |Run(st, evs).state.registry| <= |st.cfg.downloads|
  {
    RunKeepsDownloads(st, evs);
    FinishedBounded(Run(st, evs).state);
  }

  lemma {:induction false} RunKeepsDownloads(st: State, evs: seq<Event>)
    requires Valid(st) && Admissible(st, evs)
    ensures Run(st, evs).state.cfg.downloads == st.cfg.downloads
    decreases |evs|
  {
    if |evs| > 0 {
      HandleFacts(st, evs[0]);
      RunKeepsDownloads(Handle(st, evs[0]).state, evs[1..]);
    }
  }

  /** An event's effect on the requests: the configured downloads never
      change, SENDED_FLAG is never cleared, and the request messages emitted are
      the whole batch, exactly when the flag goes from clear to set. */
  ghost predicate RequestsFollowFlag(st: State, r: Step) {
    && r.state.cfg.downloads == st.cfg.downloads
    && (st.requestsSent ==> r.state.requestsSent)
    && Requests(r.actions) == if !st.requestsSent && r.state.requestsSent then RequestAll(st.cfg.downloads) else []
  }

  /** An event's effect once alarm(0) has run and OUTPUT_FLAG is clear: both
      stay so, and no progress report is printed. */
  ghost predicate StaysSilent(r: Step) {
    && !r.state.timerArmed && !r.state.outputPending
    && forall k :: 0 <= k < |r.actions| ==> !IsReportLine(r.actions[k])
  }

  /** Facts shared by the handlers that neither send requests nor print reports. */
  lemma {:induction false} QuietStep(st: State, r: Step)
    requires r.state.cfg.downloads == st.cfg.downloads
    requires r.state.requestsSent == st.requestsSent
    requires r.state.timerArmed == st.timerArmed && r.state.outputPending == st.outputPending
    requires forall k :: 0 <= k < |r.actions| ==> !r.actions[k].XdccRequest? && !IsReportLine(r.actions[k])
    ensures RequestsFollowFlag(st, r)
    ensures !st.timerArmed && !st.outputPending ==> StaysSilent(r)
  {
    RequestsNone(r.actions);
  }

  lemma ConnectedFacts(st: State)
    ensures RequestsFollowFlag(st, OnConnected(st))
    ensures !st.timerArmed && !st.outputPending ==> StaysSilent(OnConnected(st))
  {
    QuietStep(st, OnConnected(st));
  }

  lemma UserModeFacts(st: State, mode: string)
    ensures RequestsFollowFlag(st, OnUserMode(st, mode))
    ensures !st.timerArmed && !st.outputPending ==> StaysSilent(OnUserMode(st, mode))
  {
    QuietStep(st, OnUserMode(st, mode));
  }

  /** A mode command followed by request messages holds no report line. */
  lemma {:induction false} ModeThenRequests(acts: seq<Action>)
    requires forall k :: 0 <= k < |acts| ==> acts[k].XdccRequest?
    ensures forall k :: 0 <= k < |[SetUserMode(InvisibleMode)] + acts| ==> !IsReportLine(([SetUserMode(InvisibleMode)] + acts)[k])
  {
    var all := [SetUserMode(InvisibleMode)] + acts;
    forall k | 0 <= k < |all|
      ensures !IsReportLine(all[k])
    {
      if k > 0 {
        assert all[k] == acts[k - 1];
      }
    }
  }

  lemma JoinedFacts(st: State)
    ensures RequestsFollowFlag(st, OnJoined(st))
    ensures !st.timerArmed && !st.outputPending ==> StaysSilent(OnJoined(st))
  {
    var r := OnJoined(st);
    var mode := [SetUserMode(InvisibleMode)];
    RequestsNone(mode);
    if st.cfg.login.None? && !st.requestsSent {
      var batch := RequestAll(st.cfg.downloads);
      assert r.actions == mode + batch by {
        assert r.actions == [r.actions[0]] + r.actions[1..];
      }
      RequestsAppend(mode, batch);
      RequestsKeepAll(batch);
      ModeThenRequests(batch);
    } else {
      assert r.actions == mode;
    }
  }

  lemma ChannelModeFacts(st: State, params: seq<string>)
    ensures RequestsFollowFlag(st, OnChannelMode(st, params))
    ensures !st.timerArmed && !st.outputPending ==> StaysSilent(OnChannelMode(st, params))
  {
  }

  lemma NoticeFacts(st: State, name: string, params: seq<string>)
    requires Valid(st)
    requires InspectsNotice(name, params, st.last.Some?) ==> NoticeReadable(params[1])
    ensures RequestsFollowFlag(st, OnNotice(st, name, params))
    ensures !st.timerArmed && !st.outputPending ==> StaysSilent(OnNotice(st, name, params))
  {
    QuietStep(st, OnNotice(st, name, params));
  }

  lemma OfferFacts(st: State, offer: nat, nick: string, filename: string, size: nat, acceptOk: bool)
    requires Valid(st) && !st.exited && |st.registry| < |st.cfg.downloads|
    ensures RequestsFollowFlag(st, OnOffer(st, offer, nick, filename, size, acceptOk))
    ensures !st.timerArmed && !st.outputPending ==> StaysSilent(OnOffer(st, offer, nick, filename, size, acceptOk))
  {
    var r := OnOffer(st, offer, nick, filename, size, acceptOk);
    if IsLegalFilename(filename) {
      var path := JoinPath(st.cfg.targetDir, filename);
      assert Admitted(st, offer, nick, path, size, acceptOk, r);
      assert r.state == st.(registry := r.state.registry, cur := r.state.cur,
                            files := r.state.files, exited := r.state.exited);
    } else {
      assert r == Fatal(st);
    }
    TransferStep(st, r);
  }

  /** A step that emits only transport actions and leaves the configuration
      and the flags alone neither sends requests nor prints reports. */
  lemma TransferStep(st: State, r: Step)
    requires r.state.cfg == st.cfg && r.state.requestsSent == st.requestsSent
    requires r.state.timerArmed == st.timerArmed && r.state.outputPending == st.outputPending
    requires forall k :: 0 <= k < |r.actions| ==> IsTransferAction(r.actions[k])
    ensures RequestsFollowFlag(st, r)
    ensures !st.timerArmed && !st.outputPending ==> StaysSilent(r)
  {
    QuietStep(st, r);
  }

  lemma ResumeFacts(st: State, offer: nat, slot: nat, offset: nat, acceptOk: bool)
    requires Valid(st) && !st.exited && slot < |st.registry| && st.registry[slot].open
    ensures RequestsFollowFlag(st, OnResumeAccepted(st, offer, slot, offset, acceptOk))
    ensures !st.timerArmed && !st.outputPending ==> StaysSilent(OnResumeAccepted(st, offer, slot, offset, acceptOk))
  {
    TransferStep(st, OnResumeAccepted(st, offer, slot, offset, acceptOk));
  }

  lemma ChunkFacts(st: State, context: Option<nat>, hasData: bool, length: nat, status: int)
    requires Valid(st)
    requires ChunkPasses(context, hasData, length, status) ==>
               context.value < |st.registry| && st.registry[context.value].open
    ensures RequestsFollowFlag(st, OnChunk(st, context, hasData, length, status))
    ensures !st.timerArmed && !st.outputPending ==> StaysSilent(OnChunk(st, context, hasData, length, status))
  {
    var r := OnChunk(st, context, hasData, length, status);
    RequestsNone(r.actions);
  }

  lemma TimerFacts(st: State)
    ensures RequestsFollowFlag(st, OnTimer(st))
    ensures !st.timerArmed && !st.outputPending ==> StaysSilent(OnTimer(st))
  {
    RequestsNone(OnTimer(st).actions);
  }

  lemma KeepAliveFacts(st: State)
    ensures RequestsFollowFlag(st, OnKeepAlive(st))
    ensures !st.timerArmed && !st.outputPending ==> StaysSilent(OnKeepAlive(st))
  {
    var r := OnKeepAlive(st);
    if st.outputPending {
      var report := ProgressReport(|st.registry|);
      assert forall k :: 0 <= k < |report| ==> !report[k].XdccRequest?;
      RequestsNone(r.actions);
    }
  }

  /** The per-event facts, for whichever event is handled. */
  lemma HandleFacts(st: State, ev: Event)
    requires Valid(st) && Enabled(st, ev)
    ensures RequestsFollowFlag(st, Handle(st, ev))
    ensures !st.timerArmed && !st.outputPending ==> StaysSilent(Handle(st, ev))
  {
    if !st.exited {
      match ev
      case Connected => ConnectedFacts(st);
      case UserModeChanged(mode) => UserModeFacts(st, mode);
      case Joined => JoinedFacts(st);
      case ChannelModeChanged(params) => ChannelModeFacts(st, params);
      case NoticeReceived(name, params) => NoticeFacts(st, name, params);
      case FileOffered(offer, nick, filename, size, acceptOk) => OfferFacts(st, offer, nick, filename, size, acceptOk);
      case ResumeAccepted(offer, slot, offset, acceptOk) => ResumeFacts(st, offer, slot, offset, acceptOk);
      case ChunkReceived(context, hasData, length, status) => ChunkFacts(st, context, hasData, length, status);
      case TimerFired => TimerFacts(st);
      case KeepAlive => KeepAliveFacts(st);
    }
  }

  /** Only two events can set SENDED_FLAG: a channel join when no login
      command is configured, and a "+v" channel mode grant when one is. */
  lemma RequestTrigger(st: State, ev: Event)
    requires Valid(st) && Enabled(st, ev)
    requires !st.requestsSent && Handle(st, ev).state.requestsSent
    ensures !st.exited
    ensures || (st.cfg.login.None? && ev == Joined)
            || (st.cfg.login.Some? && ev.ChannelModeChanged? && |ev.params| > 1 && ev.params[1] == VoiceMode)
  {
  }

  /** Requests are sent at most once: over any run, the request messages emitted
      are one message per configured download, in order, if the run set
      SENDED_FLAG, and none otherwise, however many join or "+v" events
      arrive. */
  lemma {:induction false} RequestsSentOnce(st: State, evs: seq<Event>)
    requires Valid(st) && Admissible(st, evs)
    ensures st.requestsSent ==> Run(st, evs).state.requestsSent
    ensures Requests(Run(st, evs).actions)
         == if !st.requestsSent && Run(st, evs).state.requestsSent then RequestAll(st.cfg.downloads) else []
    decreases |evs|
  {
    if |evs| > 0 {
      var first := Handle(st, evs[0]);
      HandleFacts(st, evs[0]);
      RequestsSentOnce(first.state, evs[1..]);
      RequestsAppend(first.actions, Run(first.state, evs[1..]).actions);
    }
  }

  /** Sum of chunk lengths. */
  function Sum(lens: seq<nat>): nat {
    if |lens| == 0 then 0 else lens[0] + Sum(lens[1..])
  }

  /** Well-formed chunks for one slot, in order. */
  function ChunkEvents(slot: nat, lens: seq<nat>): (evs: seq<Event>)
    ensures |evs| == |lens|
    ensures forall k :: 0 <= k < |lens| ==> evs[k] == ChunkReceived(Some(slot), true, lens[k], 0)
  {
    seq(|lens|, k requires 0 <= k < |lens| => ChunkReceived(Some(slot), true, lens[k], 0))
  }

  /** Exact completion: chunks whose lengths add up exactly to what is still
      missing complete the transfer once, at the last chunk: the handle is
      closed, finishedDownloads grows by exactly one, lastDownload becomes
      curDownload and "Download completed!" is shown exactly once. */
  lemma {:induction false} ChunksCompleteExactlyOnce(st: State, slot: nat, lens: seq<nat>)
    requires Valid(st) && !st.exited
    requires slot < |st.registry| && st.registry[slot].open
    requires |lens| > 0 && forall k :: 0 <= k < |lens| ==> lens[k] > 0
    requires st.registry[slot].received + Sum(lens) == st.registry[slot].expectedSize
    ensures Admissible(st, ChunkEvents(slot, lens))
    ensures var r := Run(st, ChunkEvents(slot, lens));
            && |r.state.registry| == |st.registry|
            && r.state.registry[slot] == st.registry[slot].(received := st.registry[slot].expectedSize, open := false)
            && r.state.finished == st.finished + 1
            && r.state.last == st.cur
            && multiset(r.actions)[ShowCompleted] == 1
    decreases |lens|
  {
    var evs := ChunkEvents(slot, lens);
    var first := Handle(st, evs[0]);
    var rest := lens[1..];
    assert evs[1..] == ChunkEvents(slot, rest);
    if |rest| == 0 {
      assert Sum(lens) == lens[0];
      assert Admissible(first.state, evs[1..]);
      assert multiset(first.actions)[ShowCompleted] == 1;
    } else {
      assert Sum(rest) == rest[0] + Sum(rest[1..]);
      assert first.actions == [];
      ChunksCompleteExactlyOnce(first.state, slot, rest);
    }
  }

  /** The completion test is an equality: when no prefix of the chunks brings
      the received size exactly to the expected size (one chunk overshoots it,
      say), the transfer never completes, its handle stays open and
      finishedDownloads does not move. */
  lemma {:induction false} ChunksWithoutExactHitNeverComplete(st: State, slot: nat, lens: seq<nat>)
    requires Valid(st) && !st.exited
    requires slot < |st.registry| && st.registry[slot].open
    requires forall k :: 0 < k <= |lens| ==>
               st.registry[slot].received + Sum(lens[..k]) != st.registry[slot].expectedSize
    ensures Admissible(st, ChunkEvents(slot, lens))
    ensures var r := Run(st, ChunkEvents(slot, lens));
            && |r.state.registry| == |st.registry|
            && r.state.registry[slot] == st.registry[slot].(received := st.registry[slot].received + Sum(lens))
            && r.state.finished == st.finished
            && ShowCompleted !in r.actions
    decreases |lens|
  {
    if |lens| > 0 {
      var evs := ChunkEvents(slot, lens);
      var first := Handle(st, evs[0]);
      var rest := lens[1..];
      assert evs[1..] == ChunkEvents(slot, rest);
      assert lens[..1] == [lens[0]];
      assert Sum(lens[..1]) == lens[0];
      forall k | 0 < k <= |rest|
        ensures first.state.registry[slot].received + Sum(rest[..k]) != first.state.registry[slot].expectedSize
      {
        assert lens[..k + 1][1..] == rest[..k];
      }
      ChunksWithoutExactHitNeverComplete(first.state, slot, rest);
    }
  }

  /** alarm(0) runs on every completion, not only the last one, and nothing
      re-arms the alarm: once the first download completes and the pending
      flag is consumed, no further progress report is printed for the
      downloads still running. */
  lemma {:induction false} NoReportAfterTimerStopped(st: State, evs: seq<Event>)
    requires Valid(st) && Admissible(st, evs)
    requires !st.timerArmed && !st.outputPending
    ensures forall k :: 0 <= k < |Run(st, evs).actions| ==> !IsReportLine(Run(st, evs).actions[k])
    ensures !Run(st, evs).state.timerArmed
    decreases |evs|
  {
    if |evs| > 0 {
      var first := Handle(st, evs[0]);
      HandleFacts(st, evs[0]);
      NoReportAfterTimerStopped(first.state, evs[1..]);
    }
  }

  /** A partial file of size `existing` (neither empty nor of the offered size)
      is resumed: the offer asks the bot to resume at `existing`, and once the
      bot acknowledges that offset the record counts `existing` bytes as
      received and the transfer is accepted. */
  lemma ResumeFromExistingSize(st: State, offer: nat, nick: string, filename: string, size: nat, existing: nat)
    requires Valid(st) && !st.exited && |st.registry| < |st.cfg.downloads|
    requires IsLegalFilename(filename)
    requires JoinPath(st.cfg.targetDir, filename) in st.files
    requires st.files[JoinPath(st.cfg.targetDir, filename)] == existing
    requires existing != 0 && existing != size
    ensures var slot := |st.registry|;
            var evs := [FileOffered(offer, nick, filename, size, true), ResumeAccepted(offer, slot, existing, true)];
            && Admissible(st, evs)
            && Run(st, evs).actions == [ResumeOffer(offer, slot, nick, existing), AcceptOffer(offer, slot)]
            && |Run(st, evs).state.registry| == slot + 1
            && Run(st, evs).state.registry[slot] == Record(JoinPath(st.cfg.targetDir, filename), size, existing, true)
            && !Run(st, evs).state.exited
  {
    var slot := |st.registry|;
    var path := JoinPath(st.cfg.targetDir, filename);
    var evs := [FileOffered(offer, nick, filename, size, true), ResumeAccepted(offer, slot, existing, true)];
    var first := OnOffer(st, offer, nick, filename, size, true);
    assert Handle(st, evs[0]) == first;
    assert first.actions == [ResumeOffer(offer, slot, nick, existing)];
    assert first.state.registry == st.registry + [Record(path, size, 0, true)];
    assert !first.state.exited;
    var second := OnResumeAccepted(first.state, offer, slot, existing, true);
    assert Handle(first.state, evs[1]) == second;
    assert second.actions == [AcceptOffer(offer, slot)];
    assert evs[1..] == [evs[1]];
    assert evs[1..][1..] == [];
    assert Admissible(second.state, []);
    assert Run(first.state, evs[1..]) == Step(second.state, second.actions + []);
  }

  /** The OUTPUT_FLAG protocol: while the alarm is armed, a tick followed by any
      number of keep-alive callbacks prints exactly one report, of the current
      registry, and leaves the flag clear. */
  lemma {:induction false} OneReportPerTick(st: State, n: nat)
    requires Valid(st) && !st.exited && st.timerArmed
    ensures var evs := [TimerFired, KeepAlive] + seq(n, _ => KeepAlive);
            && Admissible(st, evs)
            && Run(st, evs).actions == ProgressReport(|st.registry|)
            && Run(st, evs).state == st.(outputPending := false)
  {
    var quiet := seq(n, _ => KeepAlive);
    var evs := [TimerFired, KeepAlive] + quiet;
    var first := Handle(st, TimerFired);
    TimerArmsOutput(st);
    var second := Handle(first.state, KeepAlive);
    KeepAliveReports(first.state);
    KeepAlivesAreSilent(second.state, n);
    assert evs[1..] == [KeepAlive] + quiet && evs[1..][1..] == quiet;
    RunFirst(first.state, evs[1..]);
    RunFirst(st, evs);
  }

  lemma TimerArmsOutput(st: State)
    requires Valid(st) && !st.exited && st.timerArmed
    ensures Handle(st, TimerFired) == Step(st.(outputPending := true), [])
  {
  }

  lemma KeepAliveReports(st: State)
    requires Valid(st) && !st.exited && st.outputPending
    ensures Handle(st, KeepAlive) == Step(st.(outputPending := false), ProgressReport(|st.registry|))
  {
  }

  /** Run, one event at a time: the first event's actions come first. */
  lemma RunFirst(st: State, evs: seq<Event>)
    requires Valid(st) && |evs| > 0 && Enabled(st, evs[0])
    requires Admissible(Handle(st, evs[0]).state, evs[1..])
    ensures Admissible(st, evs)
    ensures Run(st, evs).state == Run(Handle(st, evs[0]).state, evs[1..]).state
    ensures Run(st, evs).actions == Handle(st, evs[0]).actions + Run(Handle(st, evs[0]).state, evs[1..]).actions
  {
  }

  lemma {:induction false} KeepAlivesAreSilent(st: State, n: nat)
    requires Valid(st) && !st.outputPending
    ensures Admissible(st, seq(n, _ => KeepAlive))
    ensures Run(st, seq(n, _ => KeepAlive)) == Step(st, [])
  {
    if n > 0 {
      var evs := seq(n, _ => KeepAlive);
      assert evs[0] == KeepAlive;
      assert evs[1..] == seq(n - 1, _ => KeepAlive);
      KeepAlivesAreSilent(st, n - 1);
    }
  }

  /** The quit test compares finishedDownloads with numActiveDownloads, the
      offers received so far, not with the configured downloads: with checksum
      verification off, completing every transfer offered so far quits the
      session even while configured downloads have not been offered yet. */
  lemma QuitBeforeLaterOffers(st: State, slot: nat, length: nat)
    requires Valid(st) && !st.exited && !st.cfg.verifyChecksum
    requires slot < |st.registry| && st.registry[slot].open
    requires st.finished + 1 == |st.registry| < |st.cfg.downloads|
    requires length > 0 && st.registry[slot].received + length == st.registry[slot].expectedSize
    ensures var r := Run(st, [ChunkReceived(Some(slot), true, length, 0)]);
            && QuitSession in r.actions
            && r.state.finished == |r.state.registry| < |r.state.cfg.downloads|
  {
    var evs := [ChunkReceived(Some(slot), true, length, 0)];
    var first := Handle(st, evs[0]);
    assert QuitSession in first.actions;
    assert Run(first.state, evs[1..]) == Step(first.state, []);
  }
}
