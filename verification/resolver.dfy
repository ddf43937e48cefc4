/** The offer resolver: recvFileRequest decides, for a file a bot offers,
    whether to reject the name, start a fresh download, resume an existing
    partial file, or stop because the file is already complete. */
module Resolver {
  import opened Common
  import opened Model

  /** The path separator of the POSIX build. */
  const PathSeparator: char := '/'
  /** Characters that may not appear in an offered filename. */
  const IllegalFilenameChars: set<char> := {'/', '\\'}

  predicate IsLegalFilename(name: string) {
    forall i :: 0 <= i < |name| ==> name[i] !in IllegalFilenameChars
  }

  predicate EndsWithSeparator(dir: string) {
    |dir| > 0 && dir[|dir| - 1] == PathSeparator
  }

  /** The complete path: the target directory, then a separator only if the
      directory does not already end with one, then the filename. */
  function JoinPath(dir: string, name: string): (path: string)
    ensures |path| == |dir| + |name| + (if EndsWithSeparator(dir) then 0 else 1)
    ensures path[..|dir|] == dir
    ensures path[|path| - |name|..] == name
    ensures path[|path| - |name| - 1] == PathSeparator
  {
    if EndsWithSeparator(dir) then dir + name else dir + [PathSeparator] + name
  }

  /** Different legal filenames never share a complete path, so the file map
      keeps one entry per offered name. */
  lemma JoinPathInjective(dir: string, a: string, b: string)
    requires JoinPath(dir, a) == JoinPath(dir, b)
    ensures a == b
  {
    var p := JoinPath(dir, a);
    assert |a| == |b|;
    assert a == p[|p| - |a|..] == b;
  }

  /** How an offer of `size` bytes for `path` is taken up. */
  datatype Resolution =
    | Fresh                  // no file: create it and accept from offset 0
    | AcceptEmpty            // an empty file: accept from offset 0 instead of resuming
    | ResumeAt(offset: nat)  // a partial file: resume at its size
    | AlreadyDownloaded      // a file of the offered size: fatal

  /** The size test comes before the emptiness test, and an existing file
      larger than the offer is resumed all the same. */
  function Resolve(files: map<string, nat>, path: string, size: nat): (r: Resolution)
    ensures r == Fresh <==> path !in files
    ensures r == AlreadyDownloaded <==> path in files && files[path] == size
    ensures r == AcceptEmpty <==> path in files && files[path] == 0 && size != 0
    ensures r.ResumeAt? <==> path in files && files[path] != 0 && files[path] != size
    ensures r.ResumeAt? ==> r.offset == files[path]
  {
    if path !in files then Fresh
    else if files[path] == size then AlreadyDownloaded
    else if files[path] == 0 then AcceptEmpty
    else ResumeAt(files[path])
  }

  /** Whether an offer is accepted from offset 0 (as opposed to resumed or rejected). */
  predicate AcceptsFromZero(files: map<string, nat>, path: string, size: nat) {
    path !in files || (files[path] == 0 && size != 0)
  }

  /** Stores a new record for `path` in the next registry slot and makes it
      curDownload; its handle is open and nothing has been received yet. */
  function Register(st: State, path: string, size: nat): (r: State)
    requires Valid(st)
    requires |st.registry| < |st.cfg.downloads|
    ensures Valid(r)
    ensures r == st.(registry := st.registry + [Record(path, size, 0, true)], cur := Some(|st.registry|))
  {
    var rec := Record(path, size, 0, true);
    var r := st.(registry := st.registry + [rec], cur := Some(|st.registry|));
    ClosedCountAppendOpen(st.registry, rec);
    assert forall i :: 0 <= i < |st.registry| ==> r.registry[i] == st.registry[i];
    r
  }

  /** recvFileRequest. A filename with '/' or '\' is fatal before anything is
      built or opened. Otherwise the record for the complete path is stored in
      the next registry slot, numActiveDownloads grows by one and curDownload
      names the new slot; then the file system decides between a resume at the
      existing size, a fatal "already downloaded", and an accept from offset 0
      (which creates the file when it is missing and is fatal when refused). */
  function OnOffer(st: State, offer: nat, nick: string, filename: string, size: nat, acceptOk: bool): (r: Step)
    requires Valid(st) && !st.exited
    requires |st.registry| < |st.cfg.downloads|
    ensures Valid(r.state)
    ensures forall k :: 0 <= k < |r.actions| ==> IsTransferAction(r.actions[k])
    ensures !IsLegalFilename(filename) ==> r == Fatal(st)
    ensures IsLegalFilename(filename) ==> Admitted(st, offer, nick, JoinPath(st.cfg.targetDir, filename), size, acceptOk, r)
  {
    if !IsLegalFilename(filename) then Fatal(st)
    else Admit(st, offer, nick, JoinPath(st.cfg.targetDir, filename), size, acceptOk)
  }

  /** The outcome of an offer with a legal name whose complete path is `path`. */
  ghost predicate Admitted(st: State, offer: nat, nick: string, path: string, size: nat, acceptOk: bool, r: Step) {
    var slot := |st.registry|;
    && r.state.registry == st.registry + [Record(path, size, 0, true)]
    && r.state.cur == Some(slot)
    && r.state.files == (if path in st.files then st.files else st.files[path := 0])
    && r.state == st.(registry := r.state.registry, cur := r.state.cur,
                      files := r.state.files, exited := r.state.exited)
    && (r.state.exited <==>
          (path in st.files && st.files[path] == size)
          || (AcceptsFromZero(st.files, path, size) && !acceptOk))
    && (AcceptsFromZero(st.files, path, size) ==> |r.actions| > 0 && r.actions[0] == AcceptOffer(offer, slot))
    && (path in st.files && st.files[path] != 0 && st.files[path] != size ==>
          r.actions == [ResumeOffer(offer, slot, nick, st.files[path])])
  }

  function Admit(st: State, offer: nat, nick: string, path: string, size: nat, acceptOk: bool): (r: Step)
    requires Valid(st) && !st.exited
    requires |st.registry| < |st.cfg.downloads|
    ensures Valid(r.state)
    ensures forall k :: 0 <= k < |r.actions| ==> IsTransferAction(r.actions[k])
    ensures Admitted(st, offer, nick, path, size, acceptOk, r)
  {
    match Resolve(st.files, path, size)
    case AlreadyDownloaded => AdmitComplete(st, offer, nick, path, size, acceptOk)
    case ResumeAt(_) => AdmitResume(st, offer, nick, path, size, acceptOk)
    case _ => AdmitFromZero(st, offer, nick, path, size, acceptOk)
  }

  /** The file is already there in full: exitPgm(EXIT_FAILURE), with the new
      record already registered. */
  function AdmitComplete(st: State, offer: nat, nick: string, path: string, size: nat, acceptOk: bool): (r: Step)
    requires Valid(st) && !st.exited
    requires |st.registry| < |st.cfg.downloads|
    requires path in st.files && st.files[path] == size
    ensures Valid(r.state)
    ensures forall k :: 0 <= k < |r.actions| ==> IsTransferAction(r.actions[k])
    ensures Admitted(st, offer, nick, path, size, acceptOk, r)
  {
    Fatal(Register(st, path, size))
  }

  /** A partial file: irc_dcc_resume at its size; whether the resume request
      itself succeeded is not checked. */
  function AdmitResume(st: State, offer: nat, nick: string, path: string, size: nat, acceptOk: bool): (r: Step)
    requires Valid(st) && !st.exited
    requires |st.registry| < |st.cfg.downloads|
    requires path in st.files && st.files[path] != 0 && st.files[path] != size
    ensures Valid(r.state)
    ensures forall k :: 0 <= k < |r.actions| ==> IsTransferAction(r.actions[k])
    ensures Admitted(st, offer, nick, path, size, acceptOk, r)
  {
    Step(Register(st, path, size), [ResumeOffer(offer, |st.registry|, nick, st.files[path])])
  }

  /** No file, or an empty one: accept from offset 0; a missing file is created. */
  function AdmitFromZero(st: State, offer: nat, nick: string, path: string, size: nat, acceptOk: bool): (r: Step)
    requires Valid(st) && !st.exited
    requires |st.registry| < |st.cfg.downloads|
    requires AcceptsFromZero(st.files, path, size)
    ensures Valid(r.state)
    ensures forall k :: 0 <= k < |r.actions| ==> IsTransferAction(r.actions[k])
    ensures Admitted(st, offer, nick, path, size, acceptOk, r)
  {
    var registered := Register(st, path, size);
    var created := if path in st.files then registered else registered.(files := st.files[path := 0]);
    Accept(created, offer, |st.registry|, acceptOk)
  }
}
