/** Recognising an MD5 checksum announced in a NOTICE (extractMD5) and deciding
    whether a verification task is spawned for it (checkMD5ChecksumNotice). */
module Checksum {
  import opened Common
  import opened Text

  /** Length of a hexadecimal MD5 digest. */
  const HashLength: nat := 32
  /** The first phrasing: the hash starts 8 characters after "md5sum". */
  const LongMarker: string := "md5sum"
  const LongSkip: nat := 8
  /** The second phrasing: the hash starts 4 characters after "MD5". */
  const ShortMarker: string := "MD5"
  const ShortSkip: nat := 4

  function Min(a: nat, b: nat): nat {
    if a <= b then a else b
  }

  /** `h` is what strncpy of at most HashLength characters from offset `k` of `s`
      leaves behind: the characters of `s` from `k` on, cut at HashLength or at
      the end of `s`, whichever comes first. */
  ghost predicate IsHashWindow(s: string, k: nat, h: string) {
    k <= |s| && |h| == Min(HashLength, |s| - k) && s[k..k + |h|] == h
  }

  function CopyHash(s: string, k: nat): (h: string)
    requires k <= |s|
    ensures IsHashWindow(s, k, h)
  {
    s[k..k + Min(HashLength, |s| - k)]
  }

  /** The copy starts at a fixed offset past the marker. The C code reads that
      offset unchecked, so the notice must extend at least that far (the offset
      may point at the terminating NUL, which yields an empty hash). */
  predicate NoticeReadable(s: string) {
    match Find(s, LongMarker)
    case Some(i) => i + LongSkip <= |s|
    case None =>
      match Find(s, ShortMarker)
      case Some(j) => j + ShortSkip <= |s|
      case None => true
  }

  /** extractMD5: "md5sum" wins over "MD5"; the first occurrence of the winning
      marker is used; with neither marker there is no hash. */
  function ExtractMD5(s: string): (r: Option<string>)
    requires NoticeReadable(s)
    ensures r.None? <==> !Contains(s, LongMarker) && !Contains(s, ShortMarker)
    ensures r.Some? ==> |r.value| <= HashLength
    ensures forall i: nat :: IsFirstOccurrence(s, LongMarker, i) ==>
              r.Some? && IsHashWindow(s, i + LongSkip, r.value)
    ensures forall j: nat :: !Contains(s, LongMarker) && IsFirstOccurrence(s, ShortMarker, j) ==>
              r.Some? && IsHashWindow(s, j + ShortSkip, r.value)
  {
    match Find(s, LongMarker)
    case Some(i) => Some(CopyHash(s, i + LongSkip))
    case None =>
      match Find(s, ShortMarker)
      case Some(j) => Some(CopyHash(s, j + ShortSkip))
      case None => None
  }

  /** A notice of the form "md5sum: <hash>" yields the first 32 characters of
      <hash>, whatever follows the marker. */
  lemma LongMarkerNotice(h: string)
    ensures NoticeReadable("md5sum: " + h)
    ensures ExtractMD5("md5sum: " + h) == Some(h[..Min(HashLength, |h|)])
  {
    var s := "md5sum: " + h;
    assert OccursAt(s, LongMarker, 0) by {
      assert s[0..|LongMarker|] == LongMarker;
    }
    assert IsFirstOccurrence(s, LongMarker, 0);
    var found := Find(s, LongMarker);
    assert found == Some(0) by {
      assert found.Some?;
      assert !(0 < found.value);
    }
    assert s[LongSkip..LongSkip + Min(HashLength, |h|)] == h[..Min(HashLength, |h|)];
  }

  /** The work handed to a checksum thread: the expected hash and a copy of the
      path of the download that completed last. */
  datatype ChecksumTask = ChecksumTask(expectedHash: string, path: string)

  /** checkMD5ChecksumNotice looks at the text only for a NOTICE with exactly
      two parameters and once some download has completed. */
  predicate InspectsNotice(name: string, params: seq<string>, hasLast: bool) {
    name == "NOTICE" && |params| == 2 && hasLast
  }

  /** checkMD5ChecksumNotice: at most one task per notice, and one exactly when
      the notice is inspected and its text carries either marker. */
  function CheckNotice(name: string, params: seq<string>, lastPath: Option<string>): (r: Option<ChecksumTask>)
    requires InspectsNotice(name, params, lastPath.Some?) ==> NoticeReadable(params[1])
    ensures r.Some? <==> (InspectsNotice(name, params, lastPath.Some?)
                          && (Contains(params[1], LongMarker) || Contains(params[1], ShortMarker)))
    ensures r.Some? ==> r.value == ChecksumTask(ExtractMD5(params[1]).value, lastPath.value)
  {
    if !InspectsNotice(name, params, lastPath.Some?) then None
    else
      match ExtractMD5(params[1])
      case None => None
      case Some(hash) => Some(ChecksumTask(hash, lastPath.value))
  }
}
