/** The progress reporter: output_handler (the SIGALRM handler, reduced to
    setting OUTPUT_FLAG), print_output_callback (consumes the flag) and
    output_all_progesses (the report itself). */
module Progress {
  import opened Model

  /** The per-download part of output_all_progesses for slots 0 .. k-1: each
      progress entry, followed by a newline when `newline` holds. */
  function ProgressEntries(k: nat, newline: bool): (acts: seq<Action>)
    ensures LaidOut(acts, k, newline)
    ensures EntriesBelow(acts, k)
  {
    if k == 0 then []
    else
      var prev := ProgressEntries(k - 1, newline);
      AppendEntry(prev, k - 1, newline);
      AppendLaidOut(prev, k - 1, newline);
      prev + [ShowProgress(k - 1)] + (if newline then [NewLine] else [])
  }

  /** `acts` is the entry of each slot below `k` in slot order, each followed by
      a newline when `newline` holds. */
  ghost predicate LaidOut(acts: seq<Action>, k: nat, newline: bool) {
    && |acts| == (if newline then 2 * k else k)
    && (newline ==> forall m :: 0 <= m < k ==> acts[2 * m] == ShowProgress(m) && acts[2 * m + 1] == NewLine)
    && (!newline ==> forall j :: 0 <= j < |acts| ==> acts[j] == ShowProgress(j))
  }

  lemma AppendLaidOut(prev: seq<Action>, n: nat, newline: bool)
    requires LaidOut(prev, n, newline)
    ensures LaidOut(prev + [ShowProgress(n)] + (if newline then [NewLine] else []), n + 1, newline)
  {
    var acts := prev + [ShowProgress(n)] + (if newline then [NewLine] else []);
    assert forall j :: 0 <= j < |prev| ==> acts[j] == prev[j];
  }

  /** `acts` holds nothing but progress entries and newlines, and names slots
      below `k` only, in strictly increasing order. */
  ghost predicate EntriesBelow(acts: seq<Action>, k: nat) {
    && (forall j :: 0 <= j < |acts| ==> acts[j].ShowProgress? || acts[j] == NewLine)
    && (forall j :: 0 <= j < |acts| && acts[j].ShowProgress? ==> acts[j].slot < k)
    && SlotsIncreasing(acts)
  }

  /** Appending the entry of slot `n` (and a newline) to entries below `n`
      gives entries below `n + 1`. */
  lemma AppendEntry(prev: seq<Action>, n: nat, newline: bool)
    requires EntriesBelow(prev, n)
    ensures EntriesBelow(prev + [ShowProgress(n)] + (if newline then [NewLine] else []), n + 1)
  {
    var acts := prev + [ShowProgress(n)] + (if newline then [NewLine] else []);
    assert forall j :: 0 <= j < |prev| ==> acts[j] == prev[j];
    assert acts[|prev|] == ShowProgress(n);
    assert newline ==> acts[|prev| + 1] == NewLine;
  }

  /** The progress entries of `acts` name their slots in strictly increasing order. */
  ghost predicate SlotsIncreasing(acts: seq<Action>) {
    forall j1, j2 :: 0 <= j1 < j2 < |acts| && acts[j1].ShowProgress? && acts[j2].ShowProgress? ==>
      acts[j1].slot < acts[j2].slot
  }

  /** The line-ending parts of a report: the waiting line, a newline, a carriage return. */
  predicate IsReportLine(a: Action) {
    a.ShowWaiting? || a.NewLine? || a.CarriageReturn?
  }

  /** output_all_progesses with `active` registered downloads: the waiting line
      when none is active; a single entry followed by a carriage return (so the
      next report overwrites it) when one is; otherwise one entry per slot in
      slot order, each on its own line. */
  function ProgressReport(active: nat): (acts: seq<Action>)
    ensures SlotsIncreasing(acts)
    ensures forall j :: 0 <= j < |acts| && acts[j].ShowProgress? ==> acts[j].slot < active
    ensures |acts| > 0 && IsReportLine(acts[|acts| - 1])
    ensures active == 0 ==> acts == [ShowWaiting]
    ensures active == 1 ==> acts == [ShowProgress(0), CarriageReturn]
    ensures active > 1 ==> |acts| == 2 * active
    ensures active > 1 ==> forall m :: 0 <= m < active ==>
              acts[2 * m] == ShowProgress(m) && acts[2 * m + 1] == NewLine
    ensures forall j :: 0 <= j < |acts| ==> acts[j].ShowProgress? || IsReportLine(acts[j])
  {
    if active < 1 then [ShowWaiting]
    else
      ProgressEntries(active, active != 1) + (if active == 1 then [CarriageReturn] else [])
  }

  /** A report covers the registry exactly: it names every active slot, no
      other slot, and the slots in strictly increasing order, so each active
      slot gets exactly one progress entry. */
  lemma ReportCoversEverySlot(active: nat)
    ensures forall i :: 0 <= i < active ==> ShowProgress(i) in ProgressReport(active)
    ensures forall j :: 0 <= j < |ProgressReport(active)| && ProgressReport(active)[j].ShowProgress? ==>
              ProgressReport(active)[j].slot < active
    ensures SlotsIncreasing(ProgressReport(active))
  {
    var acts := ProgressReport(active);
    if active > 1 {
      forall i | 0 <= i < active
        ensures ShowProgress(i) in acts
      {
        assert acts[2 * i] == ShowProgress(i);
      }
    } else if active == 1 {
      assert acts[0] == ShowProgress(0);
    }
  }

  /** output_handler: while the alarm is armed a tick sets OUTPUT_FLAG (and
      re-arms the alarm); once alarm(0) has cancelled it no tick arrives. */
  function OnTimer(st: State): (r: Step)
    ensures r.actions == []
    ensures st.timerArmed ==> r.state == st.(outputPending := true)
    ensures !st.timerArmed ==> r.state == st
  {
    if st.timerArmed then Step(st.(outputPending := true), []) else Step(st, [])
  }

  /** print_output_callback: reports only when OUTPUT_FLAG is set, then clears it. */
  function OnKeepAlive(st: State): (r: Step)
    ensures st.outputPending ==> r.state == st.(outputPending := false)
    ensures st.outputPending ==> r.actions == ProgressReport(|st.registry|)
    ensures !st.outputPending ==> r == Step(st, [])
  {
    if st.outputPending then Step(st.(outputPending := false), ProgressReport(|st.registry|))
    else Step(st, [])
  }
}
