/** The per-transfer callbacks: callback_dcc_recv_file for each received chunk
    and callback_dcc_resume_file once the bot acknowledges a resume. */
module Transfer {
  import opened Common
  import opened Model

  /** The guard clauses of callback_dcc_recv_file: a chunk with no data, no
      context, zero length or an error status is only logged. */
  predicate ChunkPasses(slot: Option<nat>, hasData: bool, length: nat, status: int) {
    hasData && slot.Some? && length > 0 && status == 0
  }

  function FileSize(files: map<string, nat>, path: string): nat {
    if path in files then files[path] else 0
  }

  /** callback_dcc_recv_file. A chunk that passes the guards adds its length to
      sizeRcvd and to the file. Only when sizeRcvd then equals completeFileSize
      exactly does the transfer complete: the alarm stops, a last progress line
      and "Download completed!" are shown, the handle is closed,
      lastDownload := curDownload (the most recently offered record, whichever
      slot completed) and finishedDownloads grows by one; the session is asked
      to quit exactly when checksum verification is off and every registered
      download has finished. A chunk that jumps past the expected size leaves
      the transfer incomplete. */
  function OnChunk(st: State, slot: Option<nat>, hasData: bool, length: nat, status: int): (r: Step)
    requires Valid(st)
    requires ChunkPasses(slot, hasData, length, status) ==>
               slot.value < |st.registry| && st.registry[slot.value].open
    ensures Valid(r.state)
    ensures !ChunkPasses(slot, hasData, length, status) ==> r == Step(st, [])
    ensures ChunkPasses(slot, hasData, length, status) ==> ChunkApplied(st, slot.value, length, r)
  {
    if !ChunkPasses(slot, hasData, length, status) then Step(st, [])
    else
      var i := slot.value;
      var rec := st.registry[i];
      if rec.received + length == rec.expectedSize then
        FinishApplies(st, i, length);
        Finish(st, i, length)
      else
        GrowApplies(st, i, length);
        Grow(st, i, length)
  }

  /** The effect of a chunk of `length` bytes that passed the guards, on slot
      `i`: the received size grows by exactly `length`; only when it then equals
      the expected size does the slot close, finishedDownloads grow by one,
      lastDownload become curDownload, the alarm stop, and "Download completed!"
      show; quit is requested exactly when that completion leaves every
      registered download finished with checksum verification off. Nothing
      else changes. */
  ghost predicate ChunkApplied(st: State, i: nat, length: nat, r: Step)
    requires i < |st.registry|
  {
    var rec := st.registry[i];
    var completes := rec.received + length == rec.expectedSize;
    var quit := completes && !st.cfg.verifyChecksum && st.finished + 1 == |st.registry|;
    && |r.state.registry| == |st.registry|
    && r.state.registry[i] == rec.(received := rec.received + length, open := !completes)
    && (forall k :: 0 <= k < |st.registry| && k != i ==> r.state.registry[k] == st.registry[k])
    && r.state.finished == st.finished + (if completes then 1 else 0)
    && r.state.last == (if completes then st.cur else st.last)
    && r.state.timerArmed == (st.timerArmed && !completes)
    && r.state.quitRequested == (st.quitRequested || quit)
    && r.state.files == st.files[rec.path := FileSize(st.files, rec.path) + length]
    && r.state == st.(registry := r.state.registry, finished := r.state.finished,
                      last := r.state.last, timerArmed := r.state.timerArmed,
                      quitRequested := r.state.quitRequested, files := r.state.files)
    && (!completes ==> r.actions == [])
    && (completes ==> r.actions == [StopTimer, ShowProgress(i), ShowCompleted, CloseFile(i)]
                                   + (if quit then [QuitSession] else []))
    && (QuitSession in r.actions <==> quit)
  }

  lemma GrowApplies(st: State, i: nat, length: nat)
    requires Valid(st) && i < |st.registry| && st.registry[i].open
    requires st.registry[i].received + length != st.registry[i].expectedSize
    ensures ChunkApplied(st, i, length, Grow(st, i, length))
  {
  }

  lemma FinishApplies(st: State, i: nat, length: nat)
    requires Valid(st) && i < |st.registry| && st.registry[i].open
    requires st.registry[i].received + length == st.registry[i].expectedSize
    ensures ChunkApplied(st, i, length, Finish(st, i, length))
  {
    var r := Finish(st, i, length);
    var quit := !st.cfg.verifyChecksum && st.finished + 1 == |st.registry|;
    assert QuitSession in r.actions <==> quit by {
      if quit {
        assert r.actions[4] == QuitSession;
      } else {
        assert r.actions == [StopTimer, ShowProgress(i), ShowCompleted, CloseFile(i)];
      }
    }
  }

  /** A chunk that leaves the transfer incomplete. */
  function Grow(st: State, i: nat, length: nat): (r: Step)
    requires Valid(st) && i < |st.registry| && st.registry[i].open
    requires st.registry[i].received + length != st.registry[i].expectedSize
    ensures Valid(r.state)
    ensures r.actions == []
    ensures r.state == st.(registry := st.registry[i := st.registry[i].(received := st.registry[i].received + length)],
                           files := st.files[st.registry[i].path := FileSize(st.files, st.registry[i].path) + length])
  {
    var rec := st.registry[i];
    var grown := rec.(received := rec.received + length);
    ClosedCountUpdate(st.registry, i, grown);
    Step(st.(registry := st.registry[i := grown],
             files := st.files[rec.path := FileSize(st.files, rec.path) + length]), [])
  }

  /** The chunk that completes the transfer. */
  function Finish(st: State, i: nat, length: nat): (r: Step)
    requires Valid(st) && i < |st.registry| && st.registry[i].open
    requires st.registry[i].received + length == st.registry[i].expectedSize
    ensures Valid(r.state)
    ensures var quit := !st.cfg.verifyChecksum && st.finished + 1 == |st.registry|;
      && r.actions == [StopTimer, ShowProgress(i), ShowCompleted, CloseFile(i)] + (if quit then [QuitSession] else [])
      && r.state == st.(registry := st.registry[i := st.registry[i].(received := st.registry[i].expectedSize, open := false)],
                        files := st.files[st.registry[i].path := FileSize(st.files, st.registry[i].path) + length],
                        finished := st.finished + 1, last := st.cur, timerArmed := false,
                        quitRequested := st.quitRequested || quit)
  {
    var rec := st.registry[i];
    var closed := rec.(received := rec.expectedSize, open := false);
    ClosedCountUpdate(st.registry, i, closed);
    var quit := !st.cfg.verifyChecksum && st.finished + 1 == |st.registry|;
    Step(st.(registry := st.registry[i := closed],
             files := st.files[rec.path := FileSize(st.files, rec.path) + length],
             finished := st.finished + 1, last := st.cur, timerArmed := false,
             quitRequested := st.quitRequested || quit),
         [StopTimer, ShowProgress(i), ShowCompleted, CloseFile(i)] + (if quit then [QuitSession] else []))
  }

  /** callback_dcc_resume_file: sizeRcvd becomes the acknowledged offset, then
      the transfer is accepted; a refused accept is fatal. */
  function OnResumeAccepted(st: State, offer: nat, slot: nat, offset: nat, acceptOk: bool): (r: Step)
    requires Valid(st) && !st.exited
    requires slot < |st.registry| && st.registry[slot].open
    ensures Valid(r.state)
    ensures r.state.registry == st.registry[slot := st.registry[slot].(received := offset)]
    ensures r.state == st.(registry := r.state.registry, exited := r.state.exited)
    ensures |r.actions| > 0 && r.actions[0] == AcceptOffer(offer, slot)
    ensures forall k :: 0 <= k < |r.actions| ==> IsTransferAction(r.actions[k])
    ensures r.state.exited <==> !acceptOk
  {
    var rec := st.registry[slot].(received := offset);
    ClosedCountUpdate(st.registry, slot, rec);
    Accept(st.(registry := st.registry[slot := rec]), offer, slot, acceptOk)
  }
}
