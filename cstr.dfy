/** The few C string primitives the downloaders rely on, stated over `seq<char>`:
    `strstr` and `strchr` as "index of the first occurrence", `snprintf` into a
    fixed buffer as truncation, and the C-string view of a NUL-terminated buffer. */
module CStr {

  datatype Option<+T> = None | Some(value: T)

  /** `pat` occurs in `s` starting at index `i`. */
  predicate MatchAt(s: string, pat: string, i: nat)
  {
    i + |pat| <= |s| && s[i..i + |pat|] == pat
  }

  /** `pat` occurs somewhere in `s`. */
  ghost predicate Contains(s: string, pat: string)
  {
    exists i: nat :: MatchAt(s, pat, i)
  }

  /** `i` is the first index at which `pat` occurs in `s`. */
  ghost predicate FirstMatch(s: string, pat: string, i: nat)
  {
    MatchAt(s, pat, i) && forall j: nat :: j < i ==> !MatchAt(s, pat, j)
  }

  /** `strstr(s, pat)`: the index of the first occurrence of `pat`, if any. */
  function Find(s: string, pat: string): (r: Option<nat>)
    ensures r.Some? <==> Contains(s, pat)
    ensures r.Some? ==> FirstMatch(s, pat, r.value)
  {
    FindFrom(s, pat, 0)
  }

  /** The scan behind `Find`, having ruled out every index below `i`. */
  function FindFrom(s: string, pat: string, i: nat): (r: Option<nat>)
    requires forall j: nat :: j < i ==> !MatchAt(s, pat, j)
    ensures r.Some? ==> i <= r.value && FirstMatch(s, pat, r.value)
    ensures r.None? ==> !Contains(s, pat)
    decreases |s| - i
  {
    if i + |pat| > |s| then
      None
    else if s[i..i + |pat|] == pat then
      Some(i)
    else
      FindFrom(s, pat, i + 1)
  }

  /** `strchr(s, c)`: the index of the first `c`, if any. */
  function FindChar(s: string, c: char): (r: Option<nat>)
    ensures r.Some? ==> r.value < |s| && s[r.value] == c && c !in s[..r.value]
    ensures r.None? ==> c !in s
  {
    if s == [] then
      None
    else if s[0] == c then
      Some(0)
    else
      match FindChar(s[1..], c)
      case None => None
      case Some(k) =>
        assert s[..k + 1] == [s[0]] + s[1..][..k];
        Some(k + 1)
  }

  /** The C string a NUL-terminated buffer holds: its characters up to the first NUL. */
  function AsCString(buf: string): (r: string)
    ensures r <= buf && '\0' !in r
    ensures |r| < |buf| ==> buf[|r|] == '\0'
    ensures '\0' !in buf ==> r == buf
  {
    match FindChar(buf, '\0')
    case Some(k) => buf[..k]
    case None => buf
  }

  /** `snprintf` of the text `s` into a buffer of `cap` bytes: at most `cap - 1`
      characters survive, and a text that fits is kept whole. */
  function Snprintf(s: string, cap: nat): (r: string)
    requires cap > 0
    ensures r <= s && |r| < cap
    ensures |s| < cap ==> r == s
    ensures |s| >= cap ==> |r| == cap - 1
  {
    if |s| < cap then s else s[..cap - 1]
  }

  /** A match inside a prefix of `s` is a match in `s`. */
  lemma MatchInPrefix(s: string, n: nat, pat: string, j: nat)
    requires n <= |s| && MatchAt(s[..n], pat, j)
    ensures MatchAt(s, pat, j)
  {
    assert s[..n][j..j + |pat|] == s[j..j + |pat|];
  }

  /** If `pat` does not occur in `a` followed by all but the last character of `pat`,
      then the first occurrence of `pat` in `a + pat + b` starts right after `a`. */
  lemma FindAfter(a: string, pat: string, b: string)
    requires |pat| > 0 && !Contains(a + pat[..|pat| - 1], pat)
    ensures Find(a + pat + b, pat) == Some(|a|)
  {
    var s := a + pat + b;
    var t := a + pat[..|pat| - 1];
    assert s[|a|..|a| + |pat|] == pat;
    assert MatchAt(s, pat, |a|);
    forall j: nat | j < |a|
      ensures !MatchAt(s, pat, j)
    {
      assert !MatchAt(t, pat, j);
      if j + |pat| <= |s| {
        assert s[j..j + |pat|] == t[j..j + |pat|];
      }
    }
    var r := Find(s, pat);
    assert r.Some?;
    assert !(r.value < |a|);
  }

  /** If `c` does not occur in `a`, the first `c` of `a + [c] + b` is at index `|a|`. */
  lemma FindCharAfter(a: string, c: char, b: string)
    requires c !in a
    ensures FindChar(a + [c] + b, c) == Some(|a|)
  {
    var s := a + [c] + b;
    assert s[|a|] == c;
    assert s[..|a|] == a;
    var r := FindChar(s, c);
    assert r.Some?;
    assert !(r.value < |a|);
  }

  /** Indexing past the first part of a concatenation reads the second. */
  lemma AppendIndex(a: string, b: string, k: nat)
    requires k < |b|
    ensures (a + b)[|a| + k] == b[k]
  {
  }

  /** Of two prefixes of the same text, the shorter is a prefix of the longer. */
  lemma PrefixOfPrefix(a: string, b: string, s: string)
    requires a <= s && b <= s && |a| <= |b|
    ensures a <= b
  {
    assert b[..|a|] == s[..|a|];
  }
}
