/** The string primitives the orchestrator relies on: substring search (strstr,
    sdscontains) and trimming a set of characters from both ends (sdstrim). */
module Text {
  import opened Common

  /** `pat` occurs in `s` starting at index `i`. */
  ghost predicate OccursAt(s: string, pat: string, i: nat) {
    i + |pat| <= |s| && s[i..i + |pat|] == pat
  }

  /** `i` is the leftmost index at which `pat` occurs in `s`. */
  ghost predicate IsFirstOccurrence(s: string, pat: string, i: nat) {
    OccursAt(s, pat, i) && forall j: nat :: j < i ==> !OccursAt(s, pat, j)
  }

  ghost predicate Contains(s: string, pat: string) {
    exists i: nat :: OccursAt(s, pat, i)
  }

  /** Leftmost occurrence of `pat` at or after `k`, knowing there is none before `k`. */
  function FindFrom(s: string, pat: string, k: nat): (r: Option<nat>)
    requires forall j: nat :: j < k ==> !OccursAt(s, pat, j)
    ensures r.Some? ==> IsFirstOccurrence(s, pat, r.value)
    ensures r.None? ==> !Contains(s, pat)
    decreases |s| - k
  {
    if k + |pat| > |s| then None
    else if s[k..k + |pat|] == pat then Some(k)
    else FindFrom(s, pat, k + 1)
  }

  /** strstr: the index of the first occurrence of `pat`, if any. */
  function Find(s: string, pat: string): (r: Option<nat>)
    ensures r.Some? ==> IsFirstOccurrence(s, pat, r.value)
    ensures r.None? <==> !Contains(s, pat)
  {
    FindFrom(s, pat, 0)
  }

  /** Every character of `s` is in `cset`. */
  ghost predicate AllIn(s: string, cset: set<char>) {
    forall i :: 0 <= i < |s| ==> s[i] in cset
  }

  /** Drops the leading characters that belong to `cset`. */
  function TrimLeft(s: string, cset: set<char>): (r: string)
    ensures |r| <= |s| && r == s[|s| - |r|..]
    ensures AllIn(s[..|s| - |r|], cset)
    ensures |r| > 0 ==> r[0] !in cset
  {
    if |s| > 0 && s[0] in cset then TrimLeft(s[1..], cset) else s
  }

  /** Drops the trailing characters that belong to `cset`. */
  function TrimRight(s: string, cset: set<char>): (r: string)
    ensures |r| <= |s| && r == s[..|r|]
    ensures AllIn(s[|r|..], cset)
    ensures |r| > 0 ==> r[|r| - 1] !in cset
  {
    if |s| > 0 && s[|s| - 1] in cset then TrimRight(s[..|s| - 1], cset) else s
  }

  /** sdstrim: `s` without the characters of `cset` at either end. TrimUnique
      below pins the result down completely. */
  function Trim(s: string, cset: set<char>): (r: string)
    ensures |r| <= |s|
    ensures |r| > 0 ==> r[0] !in cset && r[|r| - 1] !in cset
  {
    var t := TrimLeft(s, cset);
    var r := TrimRight(t, cset);
    assert |r| > 0 ==> r[0] == t[0];
    r
  }

  lemma {:induction false} TrimLeftSkips(pre: string, rest: string, cset: set<char>)
    requires AllIn(pre, cset)
    requires |rest| > 0 ==> rest[0] !in cset
    ensures TrimLeft(pre + rest, cset) == rest
    decreases |pre|
  {
    if |pre| == 0 {
      assert pre + rest == rest;
    } else {
      assert (pre + rest)[0] == pre[0];
      assert (pre + rest)[1..] == pre[1..] + rest;
      TrimLeftSkips(pre[1..], rest, cset);
    }
  }

  lemma {:induction false} TrimRightSkips(body: string, suf: string, cset: set<char>)
    requires AllIn(suf, cset)
    requires |body| > 0 ==> body[|body| - 1] !in cset
    ensures TrimRight(body + suf, cset) == body
    decreases |suf|
  {
    if |suf| == 0 {
      assert body + suf == body;
    } else {
      var s := body + suf;
      assert s[|s| - 1] == suf[|suf| - 1];
      assert s[..|s| - 1] == body + suf[..|suf| - 1];
      TrimRightSkips(body, suf[..|suf| - 1], cset);
    }
  }

  /** Trim is characterised by its result: whenever `s` splits into a prefix and
      a suffix drawn from `cset` around a middle part that does not start or end
      with a character of `cset`, trimming yields exactly that middle part. */
  lemma {:induction false} TrimUnique(pre: string, mid: string, suf: string, cset: set<char>)
    requires AllIn(pre, cset) && AllIn(suf, cset)
    requires |mid| > 0 ==> mid[0] !in cset && mid[|mid| - 1] !in cset
    ensures Trim(pre + mid + suf, cset) == mid
  {
    var s := pre + mid + suf;
    assert s == pre + (mid + suf);
    if |mid| > 0 {
      TrimLeftSkips(pre, mid + suf, cset);
      TrimRightSkips(mid, suf, cset);
    } else {
      assert s == (pre + suf) + "";
      assert AllIn(pre + suf, cset) by {
        forall i | 0 <= i < |pre + suf|
          ensures (pre + suf)[i] in cset
        {
          if i >= |pre| { assert (pre + suf)[i] == suf[i - |pre|]; }
        }
      }
      TrimLeftSkips(pre + suf, "", cset);
    }
  }

  /** Trimming twice is trimming once. */
  lemma TrimIdempotent(s: string, cset: set<char>)
    ensures Trim(Trim(s, cset), cset) == Trim(s, cset)
  {
    var t := Trim(s, cset);
    assert "" + t + "" == t;
    TrimUnique("", t, "", cset);
  }
}
